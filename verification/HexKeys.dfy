/** BytesToKey: the maps of the agent are keyed by the hexadecimal form of an id; they refine maps keyed by the id. */
module HexKeys {
  import opened Bytes
  import opened Protocol

  function HexDigit(n: nat): (c: char)
    requires n < 16
  {
    "0123456789abcdef"[n]
  }

  /** std::hex with a width of 2 and zero fill. */
  function HexByte(b: Byte): string {
    [HexDigit(b / 16), HexDigit(b % 16)]
  }

  function Hex(data: seq<Byte>): (key: string)
    ensures |key| == 2 * |data|
  {
    if data == [] then "" else Hex(data[..|data| - 1]) + HexByte(data[|data| - 1])
  }

  method BytesToKey(data: seq<Byte>) returns (key: string)
    ensures key == Hex(data)
  {
    key := "";
    for i := 0 to |data|
      invariant key == Hex(data[..i])
    {
      assert data[..i + 1][..i] == data[..i];
      key := key + HexByte(data[i]);
    }
    assert data[..|data|] == data;
  }

  /** Two digits for every byte, the high one first, in lower case. */
  lemma {:induction false} HexDigits(data: seq<Byte>, i: nat)
    requires i < |data|
    ensures Hex(data)[2 * i] == "0123456789abcdef"[data[i] / 16]
    ensures Hex(data)[2 * i + 1] == "0123456789abcdef"[data[i] % 16]
    decreases |data|
  {
    if i < |data| - 1 {
      HexDigits(data[..|data| - 1], i);
    }
  }

  lemma {:induction false} DigitInjective(m: nat, n: nat)
    requires m < 16 && n < 16 && HexDigit(m) == HexDigit(n)
    ensures m == n
  {
  }

  lemma {:induction false} HexInjective(a: seq<Byte>, b: seq<Byte>)
    requires Hex(a) == Hex(b)
    ensures a == b
    decreases |a|
  {
    var k := |Hex(a)|;
    if k > 0 {
      var n := |a| - 1;
      assert Hex(a)[..k - 2] == Hex(a[..n]) && Hex(b)[..k - 2] == Hex(b[..n]);
      assert Hex(a)[k - 2..] == HexByte(a[n]) && Hex(b)[k - 2..] == HexByte(b[n]);
      HexInjective(a[..n], b[..n]);
      DigitInjective(a[n] / 16, b[n] / 16);
      DigitInjective(a[n] % 16, b[n] % 16);
    }
  }

  lemma {:induction false} OnlyKeyOf(id: Uuid)
    ensures forall other: Uuid {:trigger Hex(other)} :: Hex(other) == Hex(id) ==> other == id
  {
    forall other: Uuid | Hex(other) == Hex(id) ensures other == id {
      HexInjective(other, id);
    }
  }

  /** m holds under hexadecimal keys what records holds under ids. */
  ghost predicate Refines<T>(m: map<string, T>, records: map<Uuid, T>) {
    && (forall id {:trigger Hex(id)} :: id in records ==> Hex(id) in m && m[Hex(id)] == records[id])
    && (forall key :: key in m ==> HasId(records, key))
  }

  ghost predicate HasId<T>(records: map<Uuid, T>, key: string) {
    exists id :: id in records && Hex(id) == key
  }

  lemma {:induction false} RefinesLookup<T>(m: map<string, T>, records: map<Uuid, T>, id: Uuid)
    requires Refines(m, records)
    ensures Hex(id) in m <==> id in records
    ensures id in records ==> m[Hex(id)] == records[id]
  {
    OnlyKeyOf(id);
    if Hex(id) in m {
      assert HasId(records, Hex(id));
    }
  }

  lemma {:induction false} RefinesUpdate<T>(m: map<string, T>, records: map<Uuid, T>, id: Uuid, value: T)
    requires Refines(m, records)
    ensures Refines(m[Hex(id) := value], records[id := value])
  {
    OnlyKeyOf(id);
    var records' := records[id := value];
    assert id in records';
    forall key | key in m && key != Hex(id) ensures HasId(records', key) {
      assert HasId(records, key);
      var k :| k in records && Hex(k) == key;
      assert k in records';
    }
  }

  lemma {:induction false} RefinesRemove<T>(m: map<string, T>, records: map<Uuid, T>, id: Uuid)
    requires Refines(m, records)
    ensures Refines(m - {Hex(id)}, records - {id})
  {
    OnlyKeyOf(id);
    var records' := records - {id};
    forall key | key in m && key != Hex(id) ensures HasId(records', key) {
      assert HasId(records, key);
      var k :| k in records && Hex(k) == key;
      assert k in records';
    }
  }

  // ----- loops over such a map

  /** The ids whose keys a loop over the map has not met yet. */
  ghost predicate Unvisited(ids: set<Uuid>, todo: set<string>, done: set<Uuid>) {
    done <= ids && forall id {:trigger Hex(id)} :: id in ids ==> (id in done <==> Hex(id) !in todo)
  }

  lemma {:induction false} Visit(ids: set<Uuid>, todo: set<string>, done: set<Uuid>, id: Uuid)
    requires Unvisited(ids, todo, done) && id in ids && Hex(id) in todo
    ensures id !in done && Unvisited(ids, todo - {Hex(id)}, done + {id})
  {
    OnlyKeyOf(id);
  }

  lemma {:induction false} AllVisited(ids: set<Uuid>, todo: set<string>, done: set<Uuid>)
    requires Unvisited(ids, todo, done) && todo == {}
    ensures done == ids
  {
    forall id | id in ids ensures id in done {
      assert Hex(id) !in todo;
    }
  }

  lemma {:induction false} IdOf<T>(m: map<string, T>, records: map<Uuid, T>, key: string) returns (id: Uuid)
    requires Refines(m, records) && key in m
    ensures id in records && Hex(id) == key
  {
    assert HasId(records, key);
    id :| id in records && Hex(id) == key;
  }
}
