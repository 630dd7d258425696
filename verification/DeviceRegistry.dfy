/** DeviceRegistry: who owns which CNG key handle. */
module DeviceRegistry {
  import opened Bytes
  import opened HexKeys
  import opened Protocol

  /** A BCRYPT_KEY_HANDLE; 0 is NULL. */
  type Handle = nat
  type PublicKey = seq<Byte>

  datatype Device = Device(deviceId: Uuid, name: string, handle: Handle, enabled: bool)

  /** The registered devices, and the keys that are live in CNG. */
  datatype Registry = Registry(entries: map<Uuid, Device>, keys: map<Handle, PublicKey>)

  /** What CNG returns for a key that it accepts. */
  datatype Import = Imported(handle: Handle, key: PublicKey)

  /** Any handle but NULL that is not live at the moment, even one that was destroyed before. */
  predicate Possible(r: Registry, imported: Import) {
    imported.handle != 0 && imported.handle !in r.keys
  }

  /** Every live key is held by exactly one entry, and every entry holds a live key. */
  ghost predicate Owned(r: Registry) {
    && (forall id :: id in r.entries ==> r.entries[id].handle in r.keys)
    && (forall a, b :: a in r.entries && b in r.entries && r.entries[a].handle == r.entries[b].handle ==> a == b)
    && (forall h :: h in r.keys ==> h != 0 && HasOwner(r, h))
  }

  ghost predicate HasOwner(r: Registry, h: Handle) {
    exists id :: id in r.entries && r.entries[id].handle == h
  }

  /** The entry's key is destroyed and the entry goes. */
  function AfterUnregister(r: Registry, id: Uuid): Registry {
    if id in r.entries then r.(entries := r.entries - {id}, keys := r.keys - {r.entries[id].handle}) else r
  }

  /** Nothing changes if the import fails. */
  function AfterRegister(r: Registry, id: Uuid, name: string, imported: Option<Import>): Registry {
    match imported
    case None => r
    case Some(i) =>
      if !Possible(r, i) then r
      else
        var cleared := AfterUnregister(r, id);
        Registry(cleared.entries[id := Device(id, name, i.handle, true)], cleared.keys[i.handle := i.key])
  }

  function Lookup(r: Registry, id: Uuid): Handle {
    if id in r.entries && r.entries[id].enabled then r.entries[id].handle else 0
  }

  lemma {:induction false} UnregisterKeepsOwned(r: Registry, id: Uuid)
    requires Owned(r)
    ensures Owned(AfterUnregister(r, id))
  {
    var r' := AfterUnregister(r, id);
    forall h | h in r'.keys ensures HasOwner(r', h) {
      assert HasOwner(r, h);
      var owner :| owner in r.entries && r.entries[owner].handle == h;
      assert owner in r'.entries && r'.entries[owner].handle == h;
    }
  }

  lemma {:induction false} RegisterKeepsOwned(r: Registry, id: Uuid, name: string, imported: Option<Import>)
    requires Owned(r)
    ensures Owned(AfterRegister(r, id, name, imported))
  {
    UnregisterKeepsOwned(r, id);
    if imported.Some? && Possible(r, imported.value) {
      var c, r' := AfterUnregister(r, id), AfterRegister(r, id, name, imported);
      assert r'.entries[id].handle == imported.value.handle;
      forall h | h in c.keys ensures HasOwner(r', h) {
        assert HasOwner(c, h);
        var owner :| owner in c.entries && c.entries[owner].handle == h;
        assert owner in r'.entries && r'.entries[owner].handle == h;
      }
    }
  }

  /** The code imports the new key before it destroys the old one and overwrites the entry in place. */
  lemma {:induction false} ImportFirst(r: Registry, id: Uuid, name: string, i: Import)
    requires Owned(r) && Possible(r, i)
    ensures var keys := r.keys[i.handle := i.key];
      AfterRegister(r, id, name, Some(i))
        == Registry(r.entries[id := Device(id, name, i.handle, true)],
                    if id in r.entries then keys - {r.entries[id].handle} else keys)
  {
    var c := AfterUnregister(r, id);
    assert id in r.entries ==> r.entries[id].handle in r.keys;
    assert r.entries[id := Device(id, name, i.handle, true)] == c.entries[id := Device(id, name, i.handle, true)];
  }

  /** What a lookup then finds: the handle of the new key, and no key once the device is gone. */
  lemma {:induction false} LookupAfter(r: Registry, id: Uuid, name: string, i: Import)
    requires Owned(r) && Possible(r, i)
    ensures var r' := AfterRegister(r, id, name, Some(i));
      Lookup(r', id) == i.handle && i.handle in r'.keys && r'.keys[i.handle] == i.key
    ensures Lookup(AfterUnregister(r, id), id) == 0
  {
  }

  // ----- runs

  datatype RegistryOp = Register(id: Uuid, name: string, imported: Option<Import>) | Unregister(id: Uuid)

  function ApplyChange(r: Registry, op: RegistryOp): Registry {
    match op
    case Register(id, name, imported) => AfterRegister(r, id, name, imported)
    case Unregister(id) => AfterUnregister(r, id)
  }

  function RunChanges(r: Registry, ops: seq<RegistryOp>): Registry
    decreases |ops|
  {
    if ops == [] then r else RunChanges(ApplyChange(r, ops[0]), ops[1..])
  }

  lemma {:induction false} ChangeKeepsOwned(r: Registry, op: RegistryOp)
    requires Owned(r)
    ensures Owned(ApplyChange(r, op))
  {
    match op
    case Register(id, name, imported) => RegisterKeepsOwned(r, id, name, imported);
    case Unregister(id) => UnregisterKeepsOwned(r, id);
  }

  /** A change that is not one of this device leaves its entry and its key alone. */
  lemma {:induction false} ChangeSpares(r: Registry, op: RegistryOp, d: Uuid)
    requires Owned(r) && d in r.entries && (op.id == d ==> ApplyChange(r, op) == r)
    ensures var r', h := ApplyChange(r, op), r.entries[d].handle;
      d in r'.entries && r'.entries[d] == r.entries[d] && h in r'.keys && r'.keys[h] == r.keys[h]
  {
  }

  /** Over any run no key handle is lost and none has two owners; there are as many live keys as devices. */
  lemma {:induction false} HandlesConserved(r: Registry, ops: seq<RegistryOp>)
    requires Owned(r)
    ensures Owned(RunChanges(r, ops)) && |RunChanges(r, ops).keys| == |RunChanges(r, ops).entries|
    decreases |ops|
  {
    if ops == [] {
      OneKeyEach(r);
    } else {
      ChangeKeepsOwned(r, ops[0]);
      HandlesConserved(ApplyChange(r, ops[0]), ops[1..]);
    }
  }

  lemma {:induction false} OneKeyEach(r: Registry)
    requires Owned(r)
    ensures |r.keys| == |r.entries|
    decreases |r.entries|
  {
    if r.entries.Keys == {} {
      assert r.keys.Keys == {} by {
        forall h ensures h !in r.keys {
          assert h in r.keys ==> HasOwner(r, h);
        }
      }
      assert r.keys == map[] && r.entries == map[];
    } else {
      var id :| id in r.entries;
      var r', h := AfterUnregister(r, id), r.entries[id].handle;
      UnregisterKeepsOwned(r, id);
      assert r'.entries.Keys == r.entries.Keys - {id} && r'.keys.Keys == r.keys.Keys - {h};
      assert |r'.entries.Keys| == |r.entries.Keys| - 1 && |r'.keys.Keys| == |r.keys.Keys| - 1;
      OneKeyEach(r');
    }
  }

  // ----- the classes

  /** The part of CNG that hands out key handles. */
  class Cng {
    var keys: map<Handle, PublicKey>

    constructor ()
      ensures keys == map[]
    {
      keys := map[];
    }

    /** BCryptImportKeyPair: the platform offers some handle that is not live, or NULL to refuse the key. */
    method Import(key: PublicKey, offered: Handle) returns (h: Handle)
      requires offered !in keys
      modifies this
      ensures h == offered && keys == if h == 0 then old(keys) else old(keys)[h := key]
    {
      h := offered;
      if h != 0 {
        keys := keys[h := key];
      }
    }

    /** BCryptDestroyKey, of a live key only. */
    method Destroy(h: Handle)
      requires h in keys
      modifies this`keys
      ensures keys == old(keys) - {h}
    {
      keys := keys - {h};
    }
  }

  class DeviceRegistry {
    const cng: Cng
    var devices: map<string, Device>
    /** The same devices by id. */
    ghost var entries: map<Uuid, Device>

    ghost function State(): Registry
      reads this, cng
    {
      Registry(entries, cng.keys)
    }

    ghost predicate Valid()
      reads this, cng
    {
      Refines(devices, entries) && Owned(State())
    }

    constructor (cng: Cng)
      requires cng.keys == map[]
      ensures Valid() && this.cng == cng && entries == map[]
    {
      this.cng := cng;
      devices := map[];
      entries := map[];
    }

    /** RegisterDevice and RegisterDeviceDer differ only in how they import the key. */
    method RegisterDevice(deviceId: Uuid, deviceName: string, publicKey: PublicKey, offered: Handle) returns (ok: bool)
      requires Valid() && offered !in cng.keys
      modifies this, cng
      ensures Valid() && ok == (offered != 0)
      ensures !ok ==> entries == old(entries) && cng.keys == old(cng.keys)
      ensures ok ==>
        && entries == old(entries)[deviceId := Device(deviceId, deviceName, offered, true)]
        && cng.keys == (if deviceId in old(entries) then old(cng.keys) - {old(entries)[deviceId].handle}
                        else old(cng.keys))[offered := publicKey]
      ensures State() == AfterRegister(old(State()), deviceId, deviceName,
                                       if ok then Some(Imported(offered, publicKey)) else None)
    {
      ghost var before, imported := State(), Imported(offered, publicKey);
      var hKey := cng.Import(publicKey, offered);
      if hKey == 0 {
        return false;
      }
      RegisterKeepsOwned(before, deviceId, deviceName, Some(imported));
      ImportFirst(before, deviceId, deviceName, imported);
      var keyStr := BytesToKey(deviceId);
      DestroyPrevious(keyStr, deviceId);
      Insert(keyStr, Device(deviceId, deviceName, hKey, true));
      assert State() == AfterRegister(before, deviceId, deviceName, Some(imported));
      return true;
    }

    /** m_devices[keyStr] = dev */
    method Insert(keyStr: string, dev: Device)
      requires Refines(devices, entries) && keyStr == Hex(dev.deviceId)
      modifies this
      ensures Refines(devices, entries) && entries == old(entries)[dev.deviceId := dev]
    {
      RefinesUpdate(devices, entries, dev.deviceId, dev);
      devices := devices[keyStr := dev];
      entries := entries[dev.deviceId := dev];
    }

    /** An entry's key goes before the entry itself does. */
    method DestroyPrevious(keyStr: string, ghost id: Uuid)
      requires Refines(devices, entries) && keyStr == Hex(id)
      requires id in entries ==> 0 < entries[id].handle && entries[id].handle in cng.keys
      modifies cng`keys
      ensures cng.keys == if id in entries then old(cng.keys) - {entries[id].handle} else old(cng.keys)
    {
      RefinesLookup(devices, entries, id);
      if keyStr in devices && devices[keyStr].handle != 0 {
        cng.Destroy(devices[keyStr].handle);
      }
    }

    method GetDevicePublicKey(deviceId: Uuid) returns (h: Handle)
      requires Valid()
      ensures h == Lookup(State(), deviceId)
      ensures h != 0 <==> deviceId in entries && entries[deviceId].enabled
      ensures h != 0 ==> h == entries[deviceId].handle && h in cng.keys
    {
      var keyStr := BytesToKey(deviceId);
      RefinesLookup(devices, entries, deviceId);
      if keyStr in devices && devices[keyStr].enabled {
        return devices[keyStr].handle;
      }
      return 0;
    }

    method UnregisterDevice(deviceId: Uuid) returns (found: bool)
      requires Valid()
      modifies this, cng
      ensures Valid() && State() == AfterUnregister(old(State()), deviceId)
      ensures entries == old(entries) - {deviceId}
      ensures cng.keys == if deviceId in old(entries) then old(cng.keys) - {old(entries)[deviceId].handle}
                          else old(cng.keys)
      ensures found <==> deviceId in old(entries)
    {
      UnregisterKeepsOwned(State(), deviceId);
      var keyStr := BytesToKey(deviceId);
      RefinesLookup(devices, entries, deviceId);
      if keyStr in devices {
        DestroyPrevious(keyStr, deviceId);
        RefinesRemove(devices, entries, deviceId);
        devices := devices - {keyStr};
        entries := entries - {deviceId};
        return true;
      }
      return false;
    }

    method DestroyHandle(key: string)
      requires key in devices && devices[key].handle in cng.keys && devices[key].handle != 0
      modifies this`devices, cng`keys
      ensures devices == old(devices)[key := old(devices)[key].(handle := 0)]
      ensures cng.keys == old(cng.keys) - {old(devices)[key].handle}
    {
      if devices[key].handle != 0 {
        cng.Destroy(devices[key].handle);
        devices := devices[key := devices[key].(handle := 0)];
      }
    }

    /** The destructor has still to come to these entries, and has been to those. */
    ghost predicate HalfDone(was: map<string, Device>, r: Registry, todo: set<string>, done: set<Uuid>)
      reads this`devices, cng`keys
    {
      && devices.Keys == was.Keys && todo <= devices.Keys
      && Unvisited(r.entries.Keys, todo, done) && Refines(was, r.entries)
      && (forall key :: key in todo ==> devices[key] == was[key])
      && (forall key :: key in devices && key !in todo ==> devices[key].handle == 0)
      && HeldBy(r, cng.keys.Keys, done)
    }

    method DestroyEntry(key: string, ghost was: map<string, Device>, ghost r: Registry, ghost todo: set<string>,
                        ghost done: set<Uuid>)
      returns (ghost done': set<Uuid>)
      requires HalfDone(was, r, todo, done) && key in todo
      modifies this`devices, cng`keys
      ensures HalfDone(was, r, todo - {key}, done')
    {
      ghost var id := IdOf(was, r.entries, key);
      Visit(r.entries.Keys, todo, done, id);
      HeldStep(r, cng.keys.Keys, done, id);
      DestroyHandle(key);
      done' := done + {id};
    }

    /** The destructor, entry by entry in any order, leaves no key live. */
    method Destruct()
      requires Valid()
      modifies this, cng
      ensures cng.keys == map[]
      ensures forall key :: key in devices ==> devices[key].handle == 0
    {
      ghost var before, done: set<Uuid> := State(), {};
      var todo := devices.Keys;
      while todo != {}
        invariant HalfDone(old(devices), before, todo, done)
        decreases |todo|
      {
        var key :| key in todo;
        done := DestroyEntry(key, old(devices), before, todo, done);
        todo := todo - {key};
      }
      AllVisited(before.entries.Keys, todo, done);
    }
  }

  /** The live keys are those of the entries that the destructor has not come to. */
  ghost predicate HeldBy(r: Registry, live: set<Handle>, done: set<Uuid>) {
    && Owned(r)
    && (forall id :: id in r.entries && id !in done ==> r.entries[id].handle in live)
    && (forall h :: h in live ==>
          h in r.keys && forall id :: id in r.entries && r.entries[id].handle == h ==> id !in done)
  }

  lemma {:induction false} HeldStep(r: Registry, live: set<Handle>, done: set<Uuid>, id: Uuid)
    requires HeldBy(r, live, done) && id in r.entries && id !in done
    ensures var h := r.entries[id].handle; h in live && h != 0 && HeldBy(r, live - {h}, done + {id})
  {
  }
}
