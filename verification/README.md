# Register store model

A Dafny model of the server side of a small RPC register service. The server keeps a registry of named,
fixed-capacity arrays of unsigned 32-bit values ("register arrays"). Six handlers act on it:

- CreateRegisterArray
- DeleteRegisterArray
- GetRegisterArray
- GetAllRegisterArrays
- ReadValue
- WriteValue

Each array also records its `size`. This is the number of distinct indices written at least once, not the
number of writes.

The model keeps the server's two registries side by side in one `Store` value:

- `registers` maps a name to a `RegisterArray` (name, capacity, size, items);
- `writtenIndices` maps the same name to the set of indices already written.

The invariant `RegisterStore.Valid` says:

- both maps have the same key set (lockstep);
- each array is stored under its own name;
- each array holds exactly `capacity` items;
- every written index is below `capacity`;
- `size` equals the number of written indices.

Files:

- `uint32.dfy`: module `Uint32`, with the `uint32` type and explicit 32-bit wrap-around.
- `register_store.dfy`: module `RegisterStore`. It holds the data model, the invariant, the Create, Delete, Read
  and Write handlers as pure functions, and the lemmas that relate them.
- `string_order.dfy`: module `StringOrder`. It defines the order in which `std::map<std::string, …>` iterates:
  lexicographic, with a proper prefix first. It also has a method that lists a key set in that order.
- `snapshots.dfy`: module `Snapshots`. It models the response builder and the Get and GetAll handlers as
  methods. They copy arrays item by item.
- `requests.dfy`: module `Requests`. It dispatches a sequence of state-changing requests from the empty store.
  It also holds the demonstration client's runs, stated over any valid store.

How the handlers return results:

- State-changing handlers return a `Reply`, which holds a status and the new store.
- Read-only handlers (Read, Get, GetAll) take the store and return no store, so by their signature they cannot
  change it.
- Errors are the kinds `NotFound`, `AlreadyExists` and `OutOfRange`. They stand for the gRPC status codes
  `NOT_FOUND`, `ALREADY_EXISTS` and `OUT_OF_RANGE`.
- WriteValue carries no payload, because the server puts nothing into the response on a write.

Preconditions on Read and Write:

- `ReadValue` requires only that a registered array holds `capacity` items. The handler reads `items(index)`
  after checking `index` against `capacity` alone.
- `WriteValue` also requires that a registered name has a written-index set, because the handler dereferences
  that map entry without checking it.
- Both conditions follow from `Valid`. `Valid` holds of the empty store and is kept by every state-changing
  handler (`Requests.Apply`, `Requests.Run`).

`size` is stored as a `uint32`. The write handler's `size + 1` is modelled with explicit wrap-around.
`RegisterStore.WriteCountsDistinctIndices` proves that the increment never wraps in a valid store.

## Model

| member | source | states |
|---|---|---|
| RegisterStore.EmptyStore | register_server.cc:3-4 | The server starts with no arrays, and the invariant holds of that start. |
| RegisterStore.CreateRegisterArray | register_server.cc:73-112 | Create fails exactly when the name is registered, with AlreadyExists and no change at all. Otherwise it adds an array under the name with the given capacity, size 0 and `capacity` zero items, and an empty written set (insert keeps an entry already under the name). Every previous entry of both maps stays as it was. |
| RegisterStore.DeleteRegisterArray | register_server.cc:114-138 | Delete fails exactly when the name is absent, with NotFound and no change. Otherwise it removes the name from both maps and leaves every other entry untouched. |
| RegisterStore.ReadValue | register_server.cc:140-173 | Read of an absent name gives NotFound. For a present name it succeeds exactly for indices below the capacity (so never when the capacity is 0), giving OutOfRange otherwise, and returns the item at that index. |
| RegisterStore.WriteValue | register_server.cc:175-222 | Write checks existence, then the bound, before any change, and both failures return the store unchanged. It succeeds exactly for a registered name and an index below the capacity. On success the slot holds the value and every other slot, the name, the capacity and every other array are unchanged. The index joins the written set. Size is unchanged for an index already written, and otherwise is the 32-bit increment of the old size. |
| RegisterStore.BoundedSetSize | register_server.cc:214-219 | A set of indices all below n has at most n elements. This is the counting fact behind the size bound. |
| RegisterStore.SizeWithinCapacity | register_server.cc:214-219 | In a valid store, no array's size exceeds its capacity. |
| RegisterStore.WriteCountsDistinctIndices | register_server.cc:199-219 | In a valid store, a successful write adds exactly 1 to size when the index is new and 0 when it was written before. Size then equals the number of written indices, and the uint32 increment never wraps. |
| RegisterStore.CreatePreservesValid | register_server.cc:99-110 | Create keeps the lockstep and per-array invariant. |
| RegisterStore.DeletePreservesValid | register_server.cc:132-135 | Delete removes the name from both maps together, so the lockstep and per-array invariant survive. |
| RegisterStore.WritePreservesValid | register_server.cc:209-219 | Write keeps the invariant, including size equal to the number of written indices. |
| RegisterStore.ReadAfterWrite | register_server.cc:168-211 | After a successful write of a value, a read of the same name and index returns that value. |
| RegisterStore.WriteLeavesOtherSlots | register_server.cc:209-219 | A write does not change what any other (name, index) pair reads. |
| RegisterStore.DeletedArrayIsGone | register_server.cc:126-135 | After a successful delete, the name is absent. Read, write and a second delete of it all give NotFound, and none of them changes the store. |
| RegisterStore.RecreateStartsFresh | register_server.cc:99-110 | Deleting a name and creating it again gives size 0, an empty written set and zero items, whatever the old array held. |
| StringOrder.KeyOrder | register_server.cc:43-45 | The order in which the registry iterates its keys lists each key exactly once, none missing, strictly increasing in `std::string` order. |
| StringOrder.SortedUnique | register_server.cc:43-45 | Two strictly increasing listings of the same keys are equal, so that iteration order is fixed by the key set alone, whatever the creation order. |
| StringOrder.SortedKeys | register_server.cc:43-45 | The executable listing of a key set equals the map's iteration order. |
| Snapshots.BuildRegisterArrayResponse | register_server.cc:6-34 | An end iterator adds nothing to the response. Otherwise the response gains one array equal to the stored one: same name, capacity and size, and the items copied in index order. |
| Snapshots.GetRegisterArray | register_server.cc:50-71 | Get of an absent name gives NotFound. Otherwise it returns a snapshot equal to the stored array. |
| Snapshots.BuildResponseForKeys | register_server.cc:43-45 | Visiting keys in turn and appending each array gives one response entry per key, in the same order, each equal to the stored array. |
| Snapshots.GetAllRegisterArrays | register_server.cc:36-48 | GetAll returns one snapshot per registered name, with no name twice and none left out. The snapshots come in the map's key order and each equals the stored array. An empty store gives an empty result. |
| Snapshots.ValidSnapshotsOrderedByName | register_server.cc:43-45 | In a valid store every array carries the name it is registered under, so the arrays visited in key order are strictly increasing by their own names. |
| Requests.Apply | register_server.cc:73-222 | Every state-changing handler keeps the store invariant, and every failing call leaves the store exactly as it was. |
| Requests.Run | register_server.cc:73-222 | Any sequence of state-changing requests from a valid store ends in a valid store. |
| Requests.ReachableSizesWithinCapacity | register_server.cc:214-219 | In every store reachable from the empty one, each array's size is at most its capacity. |
| Requests.FlowCountRun | rpc_client.cc:39-43 | Creating "flowCount" with capacity 4 and writing 100 at index 2 succeed. Index 0 then reads 0, index 2 reads 100, and index 4 is OutOfRange. |
| Requests.PktsCountRun | rpc_client.cc:36-38 | Creating "pktsCount" with capacity 16 succeeds. A second create of it asking for capacity 10 is refused with AlreadyExists and leaves the store, including the existing array with capacity 16, unchanged. Creating "bytesCount" with 16 then succeeds and leaves "pktsCount" as it was. |
| Requests.MeterRateRun | rpc_client.cc:44-47 | After "meterRate" is created with capacity 4, writes of 10 at 0 and 50 at 2 give size 2 and items [10, 0, 50, 0]. |
| Requests.OverwriteKeepsSize | register_server.cc:214-219 | Writing the same index twice leaves size at 1, and the read returns the second value. |

## Left out

- The client library (register_client.cc) and the demonstration program (rpc_client.cc) are not modelled as
  code. They are stub calls, status printing and output formatting. The demonstration program's call sequence
  appears as the `PktsCountRun`, `FlowCountRun` and `MeterRateRun` lemmas.
- gRPC and protobuf plumbing is not modelled: `ServerContext`, the `Response` oneof, the `RepeatedField`
  calls, and the text of error messages. Only the error kind is modelled.
- Heap ownership is not modelled. Arrays and written sets are values, not the raw pointers the server
  allocates. Delete's leak of those objects is invisible in the model.
- Concurrency is not modelled. Handlers may run in parallel in the server without locking, and the model
  treats each handler call as one atomic step.
- Allocation failure and the signed `int` loop counter used to zero-fill a new array are not modelled. The
  model treats any `uint32` capacity as allocatable and filled.
- Names are `seq<char>` compared by code point. This agrees with the byte order of `std::string` for names
  whose characters are single bytes.
- Read-only handlers: that Read, Get and GetAll leave the store unchanged, and that repeated reads agree, hold
  by their signatures. No lemma states them.
