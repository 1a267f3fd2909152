/** The read-only handlers that copy register arrays into a response:
    GetRegisterArray for one array, GetAllRegisterArrays for every array in the
    registry's key order. They take the store and return no store, so they
    cannot change it. */
module Snapshots {
  import opened Uint32
  import opened StringOrder
  import opened RegisterStore

  /** A position of an iterator over the registry: past the end, or at a key. */
  datatype Position = End | At(key: string)

  /** Appends a copy of the array at `it` to the response; an end iterator adds
      nothing. The copy carries the name, capacity and size, and the items in
      index order. */
  method BuildRegisterArrayResponse(response: seq<RegisterArray>, s: Store, it: Position)
    returns (r: seq<RegisterArray>)
    requires it.At? ==> it.key in s.registers
    ensures it.End? ==> r == response
    ensures it.At? ==> r == response + [s.registers[it.key]]
  {
    if it.End? {
      return response;
    }
    var current := s.registers[it.key];
    var items: seq<uint32> := [];
    var i := 0;
    while i < |current.items|
      invariant 0 <= i <= |current.items|
      invariant items == current.items[..i]
    {
      items := items + [current.items[i]];
      i := i + 1;
    }
    assert current.items[..i] == current.items;
    r := response + [RegisterArray(current.name, current.capacity, current.size, items)];
  }

  method GetRegisterArray(s: Store, name: string) returns (r: Result<RegisterArray>)
    ensures name !in s.registers ==> r == Failure(NotFound)
    ensures name in s.registers ==> r == Success(s.registers[name])
  {
    if name !in s.registers {
      return Failure(NotFound);
    }
    var response := BuildRegisterArrayResponse([], s, At(name));
    r := Success(response[0]);
  }

  /** Builds the response for the given keys, one array per key, in order. */
  method BuildResponseForKeys(s: Store, keys: seq<string>) returns (r: seq<RegisterArray>)
    requires forall j :: 0 <= j < |keys| ==> keys[j] in s.registers
    ensures |r| == |keys|
    ensures forall j :: 0 <= j < |r| ==> r[j] == s.registers[keys[j]]
  {
    r := [];
    var i := 0;
    while i < |keys|
      invariant 0 <= i <= |keys|
      invariant |r| == i
      invariant forall j :: 0 <= j < i ==> r[j] == s.registers[keys[j]]
    {
      r := BuildRegisterArrayResponse(r, s, At(keys[i]));
      i := i + 1;
    }
  }

  /** One snapshot per registered name, taken in the registry's key order:
      no name twice, none left out. */
  method GetAllRegisterArrays(s: Store) returns (r: seq<RegisterArray>)
    ensures |r| == |s.registers|
    ensures forall i :: 0 <= i < |r| ==> r[i] == s.registers[KeyOrder(s.registers.Keys)[i]]
  {
    var keys := SortedKeys(s.registers.Keys);
    assert forall j :: 0 <= j < |keys| ==> keys[j] in s.registers by {
      forall j | 0 <= j < |keys| ensures keys[j] in s.registers {
        assert keys[j] in keys;
      }
    }
    r := BuildResponseForKeys(s, keys);
  }

  /** In a valid store every array carries the name it is registered under, so
      the arrays in key order are strictly ordered by their own names: GetAll's
      snapshots are sorted by name without duplicates. */
  lemma ValidSnapshotsOrderedByName(s: Store)
    requires Valid(s)
    ensures var ks := KeyOrder(s.registers.Keys);
      forall i, j :: 0 <= i < j < |ks| ==>
        ks[i] in s.registers && ks[j] in s.registers &&
        StrLess(s.registers[ks[i]].name, s.registers[ks[j]].name)
  {
  }
}
