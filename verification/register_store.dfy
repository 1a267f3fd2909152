/** The server-side register store: a registry of named, fixed-capacity arrays
    of unsigned 32-bit values, with a second registry that records, per array,
    which indices have been written at least once. The handlers that change the
    store (Create, Delete, Write) return the new store with their status; the
    read-only handler Read takes the store and returns no store. */
module RegisterStore {
  import opened Uint32

  /** One register array as stored by the server (and copied into responses). */
  datatype RegisterArray = RegisterArray(
    name: string,
    capacity: uint32,
    size: uint32,        // number of distinct indices written so far
    items: seq<uint32>)

  /** The two registries, keyed by array name. */
  datatype Store = Store(
    registers: map<string, RegisterArray>,
    writtenIndices: map<string, set<uint32>>)

  datatype Error = NotFound | AlreadyExists | OutOfRange

  /** The status a handler returns. */
  datatype Status = Ok | Fail(error: Error)

  /** The payload of a read-only handler, or the error it reports. */
  datatype Result<T> = Success(value: T) | Failure(error: Error)

  /** What a state-changing handler returns: its status and the store after it. */
  datatype Reply = Reply(status: Status, store: Store)

  function EmptyStore(): (s: Store)
    ensures Valid(s)
    ensures |s.registers| == 0
  {
    Store(map[], map[])
  }

  /** The per-array invariant: the array is stored under its own name, holds
      exactly `capacity` items, every written index is addressable, and `size`
      counts the written indices. */
  ghost predicate ArrayValid(name: string, a: RegisterArray, written: set<uint32>)
  {
    && a.name == name
    && |a.items| == a.capacity as int
    && (forall i :: i in written ==> i < a.capacity)
    && a.size as int == |written|
  }

  /** The store invariant: the two registries are in lockstep and every array
      satisfies the per-array invariant. */
  ghost predicate Valid(s: Store)
  {
    && s.registers.Keys == s.writtenIndices.Keys
    && forall name :: name in s.registers ==>
         ArrayValid(name, s.registers[name], s.writtenIndices[name])
  }

  /** What ReadValue dereferences: a registered array holds `capacity` items. */
  ghost predicate Addressable(s: Store, name: string)
  {
    name in s.registers ==> |s.registers[name].items| == s.registers[name].capacity as int
  }

  /** What WriteValue dereferences: in addition, a registered array has a
      written-index set. */
  ghost predicate Writable(s: Store, name: string)
  {
    && Addressable(s, name)
    && (name in s.registers ==> name in s.writtenIndices)
  }

  function NewArray(name: string, capacity: uint32): RegisterArray
  {
    RegisterArray(name, capacity, 0, seq(capacity as int, _ => 0))
  }

  /** `std::map::insert`: an entry already under `k` is kept as it is. */
  function MapInsert<K, V>(m: map<K, V>, k: K, v: V): map<K, V>
  {
    if k in m then m else m[k := v]
  }

  function CreateRegisterArray(s: Store, name: string, capacity: uint32): (r: Reply)
    // Fails exactly when the name is taken, and then changes nothing.
    ensures r.status == Ok <==> name !in s.registers
    ensures r.status != Ok ==> r.status == Fail(AlreadyExists) && r.store == s
    // On success: a fresh zeroed array under the name, with an empty written set.
    ensures r.status == Ok ==>
      && r.store.registers.Keys == s.registers.Keys + {name}
      && r.store.writtenIndices.Keys == s.writtenIndices.Keys + {name}
      && r.store.registers[name].name == name
      && r.store.registers[name].capacity == capacity
      && r.store.registers[name].size == 0
      && |r.store.registers[name].items| == capacity as int
      && (forall i :: 0 <= i < capacity as int ==> r.store.registers[name].items[i] == 0)
    ensures r.status == Ok && name !in s.writtenIndices ==> r.store.writtenIndices[name] == {}
    // Every entry that existed before is still there, unchanged.
    ensures forall n :: n in s.registers ==>
      n in r.store.registers && r.store.registers[n] == s.registers[n]
    ensures forall n :: n in s.writtenIndices ==>
      n in r.store.writtenIndices && r.store.writtenIndices[n] == s.writtenIndices[n]
  {
    if name in s.registers then
      Reply(Fail(AlreadyExists), s)
    else
      Reply(Ok, Store(s.registers[name := NewArray(name, capacity)],
                      MapInsert(s.writtenIndices, name, {})))
  }

  function DeleteRegisterArray(s: Store, name: string): (r: Reply)
    // Fails exactly when the name is absent, and then changes nothing.
    ensures r.status == Ok <==> name in s.registers
    ensures r.status != Ok ==> r.status == Fail(NotFound) && r.store == s
    // On success the name leaves both registries.
    ensures r.status == Ok ==>
      && r.store.registers.Keys == s.registers.Keys - {name}
      && r.store.writtenIndices.Keys == s.writtenIndices.Keys - {name}
    // Every other entry is untouched.
    ensures forall n :: n != name && n in s.registers ==>
      n in r.store.registers && r.store.registers[n] == s.registers[n]
    ensures forall n :: n != name && n in s.writtenIndices ==>
      n in r.store.writtenIndices && r.store.writtenIndices[n] == s.writtenIndices[n]
  {
    if name !in s.registers then
      Reply(Fail(NotFound), s)
    else
      Reply(Ok, Store(s.registers - {name}, s.writtenIndices - {name}))
  }

  function ReadValue(s: Store, name: string, index: uint32): (r: Result<uint32>)
    requires Addressable(s, name)
    ensures name !in s.registers ==> r == Failure(NotFound)
    // An existing array answers exactly for the indices below its capacity.
    ensures name in s.registers ==>
      (r.Success? <==> index < s.registers[name].capacity)
    ensures name in s.registers && r.Failure? ==> r.error == OutOfRange
    ensures r.Success? ==> r.value == s.registers[name].items[index]
  {
    if name !in s.registers then
      Failure(NotFound)
    else
      var a := s.registers[name];
      if index >= a.capacity then Failure(OutOfRange)
      else Success(a.items[index])
  }

  function WriteValue(s: Store, name: string, index: uint32, value: uint32): (r: Reply)
    requires Writable(s, name)
    // Both checks come before any change.
    ensures name !in s.registers ==> r == Reply(Fail(NotFound), s)
    ensures name in s.registers && index >= s.registers[name].capacity ==>
      r == Reply(Fail(OutOfRange), s)
    ensures r.status == Ok <==> name in s.registers && index < s.registers[name].capacity
    // No array is added or removed, and other arrays are untouched.
    ensures r.store.registers.Keys == s.registers.Keys
    ensures r.store.writtenIndices.Keys == s.writtenIndices.Keys
    ensures forall n :: n != name && n in s.registers ==>
      r.store.registers[n] == s.registers[n]
    ensures forall n :: n != name && n in s.writtenIndices ==>
      r.store.writtenIndices[n] == s.writtenIndices[n]
    // On success only the slot at `index`, the written set and the size change.
    ensures r.status == Ok ==>
      var a, a' := s.registers[name], r.store.registers[name];
      && a'.name == a.name
      && a'.capacity == a.capacity
      && |a'.items| == |a.items|
      && a'.items[index] == value
      && (forall i :: 0 <= i < |a.items| && i != index as int ==> a'.items[i] == a.items[i])
      && r.store.writtenIndices[name] == s.writtenIndices[name] + {index}
      && (index in s.writtenIndices[name] ==> a'.size == a.size)
      && (index !in s.writtenIndices[name] ==>
            a'.size as int == (a.size as int + 1) % UINT32_LIMIT)
  {
    if name !in s.registers then
      Reply(Fail(NotFound), s)
    else
      var a := s.registers[name];
      if index >= a.capacity then
        Reply(Fail(OutOfRange), s)
      else
        var written := s.writtenIndices[name];
        var size := if index in written then a.size else Wrap32(a.size as int + 1);
        var a' := a.(items := a.items[index as int := value], size := size);
        Reply(Ok, Store(s.registers[name := a'], s.writtenIndices[name := written + {index}]))
  }

  // ---------------------------------------------------------------------------
  // Counting distinct writes

  /** A set of indices below `n` has at most `n` elements. */
  lemma {:induction false} BoundedSetSize(w: set<uint32>, n: nat)
    requires n <= UINT32_LIMIT
    requires forall i :: i in w ==> (i as int) < n
    ensures |w| <= n
    decreases n
  {
    if n == 0 {
      assert w == {};
    } else {
      var top := (n - 1) as uint32;
      var w' := w - {top};
      BoundedSetSize(w', n - 1);
      assert w <= w' + {top};
    }
  }

  /** In a valid store no array has more distinct writes than slots. */
  lemma SizeWithinCapacity(s: Store, name: string)
    requires Valid(s)
    requires name in s.registers
    ensures s.registers[name].size <= s.registers[name].capacity
  {
    var a := s.registers[name];
    BoundedSetSize(s.writtenIndices[name], a.capacity as int);
  }

  /** A successful write grows `size` by exactly one when the index is new and
      leaves it alone otherwise; the 32-bit increment never wraps. */
  lemma WriteCountsDistinctIndices(s: Store, name: string, index: uint32, value: uint32)
    requires Valid(s)
    requires WriteValue(s, name, index, value).status == Ok
    ensures var w, a, a' := s.writtenIndices[name], s.registers[name],
                            WriteValue(s, name, index, value).store.registers[name];
      && (index in w ==> a'.size == a.size)
      && (index !in w ==> a'.size as int == a.size as int + 1)
      && a'.size as int == |w + {index}|
  {
    var w, a := s.writtenIndices[name], s.registers[name];
    if index !in w {
      BoundedSetSize(w + {index}, a.capacity as int);
      assert |w + {index}| == |w| + 1;
    } else {
      assert w + {index} == w;
    }
  }

  // ---------------------------------------------------------------------------
  // The store invariant is kept by every state-changing handler

  lemma CreatePreservesValid(s: Store, name: string, capacity: uint32)
    requires Valid(s)
    ensures Valid(CreateRegisterArray(s, name, capacity).store)
  {
  }

  lemma DeletePreservesValid(s: Store, name: string)
    requires Valid(s)
    ensures Valid(DeleteRegisterArray(s, name).store)
  {
  }

  lemma WritePreservesValid(s: Store, name: string, index: uint32, value: uint32)
    requires Valid(s)
    ensures Valid(WriteValue(s, name, index, value).store)
  {
    var r := WriteValue(s, name, index, value);
    if r.status == Ok {
      WriteCountsDistinctIndices(s, name, index, value);
      var s' := r.store;
      forall n | n in s'.registers
        ensures ArrayValid(n, s'.registers[n], s'.writtenIndices[n])
      {
        if n != name {
          assert s'.registers[n] == s.registers[n];
        }
      }
    }
  }

  // ---------------------------------------------------------------------------
  // Properties relating handlers

  /** Write-then-read: a successful write is seen by the next read of that slot. */
  lemma ReadAfterWrite(s: Store, name: string, index: uint32, value: uint32)
    requires Writable(s, name)
    requires WriteValue(s, name, index, value).status == Ok
    ensures ReadValue(WriteValue(s, name, index, value).store, name, index) == Success(value)
  {
  }

  /** A write leaves every other slot of every array reading as before. */
  lemma WriteLeavesOtherSlots(s: Store, name: string, index: uint32, value: uint32,
                              other: string, at: uint32)
    requires Writable(s, name) && Addressable(s, other)
    requires other != name || at != index
    ensures Addressable(WriteValue(s, name, index, value).store, other)
    ensures ReadValue(WriteValue(s, name, index, value).store, other, at) == ReadValue(s, other, at)
  {
  }

  /** Once an array is deleted, reading, writing or deleting it finds nothing. */
  lemma DeletedArrayIsGone(s: Store, name: string, index: uint32, value: uint32)
    requires DeleteRegisterArray(s, name).status == Ok
    ensures var s' := DeleteRegisterArray(s, name).store;
      && name !in s'.registers
      && ReadValue(s', name, index) == Failure(NotFound)
      && WriteValue(s', name, index, value) == Reply(Fail(NotFound), s')
      && DeleteRegisterArray(s', name) == Reply(Fail(NotFound), s')
  {
  }

  /** Deleting then re-creating a name yields a fresh zeroed array, whatever
      the deleted array held. */
  lemma RecreateStartsFresh(s: Store, name: string, capacity: uint32, index: uint32)
    requires DeleteRegisterArray(s, name).status == Ok
    ensures var s' := CreateRegisterArray(DeleteRegisterArray(s, name).store, name, capacity);
      && s'.status == Ok
      && s'.store.registers[name].size == 0
      && s'.store.writtenIndices[name] == {}
      && (index < capacity ==> ReadValue(s'.store, name, index) == Success(0))
  {
  }
}
