/** Sequences of state-changing requests as the server sees them, one handler
    call after another from the empty store, and concrete client runs. */
module Requests {
  import opened Uint32
  import opened RegisterStore

  datatype Request =
    | CreateRequest(name: string, capacity: uint32)
    | DeleteRequest(name: string)
    | WriteItemRequest(name: string, index: uint32, value: uint32)

  /** Dispatches one request to its handler. */
  function Apply(s: Store, req: Request): (r: Reply)
    requires Valid(s)
    ensures Valid(r.store)
    // Every failing call leaves the store as it was.
    ensures r.status.Fail? ==> r.store == s
  {
    match req
    case CreateRequest(name, capacity) =>
      CreatePreservesValid(s, name, capacity);
      CreateRegisterArray(s, name, capacity)
    case DeleteRequest(name) =>
      DeletePreservesValid(s, name);
      DeleteRegisterArray(s, name)
    case WriteItemRequest(name, index, value) =>
      WritePreservesValid(s, name, index, value);
      WriteValue(s, name, index, value)
  }

  /** The store after handling `reqs` in order. */
  function Run(s: Store, reqs: seq<Request>): (r: Store)
    requires Valid(s)
    ensures Valid(r)
    decreases |reqs|
  {
    if |reqs| == 0 then s
    else Run(Apply(s, reqs[0]).store, reqs[1..])
  }

  /** Every store the server can reach from its empty start keeps the invariant,
      so no array ever counts more distinct writes than it has slots. */
  lemma ReachableSizesWithinCapacity(reqs: seq<Request>, name: string)
    requires name in Run(EmptyStore(), reqs).registers
    ensures var a := Run(EmptyStore(), reqs).registers[name]; a.size <= a.capacity
  {
    SizeWithinCapacity(Run(EmptyStore(), reqs), name);
  }

  /** The demonstration client's "flowCount" calls, from any valid store that
      lacks the name: reads see the zero fill and the written value, and a read
      at the capacity is refused. */
  lemma FlowCountRun(s: Store)
    requires Valid(s)
    requires "flowCount" !in s.registers
    ensures
      var c := CreateRegisterArray(s, "flowCount", 4);
      var w := WriteValue(c.store, "flowCount", 2, 100);
      && c.status == Ok && w.status == Ok
      && ReadValue(w.store, "flowCount", 0) == Success(0)
      && ReadValue(w.store, "flowCount", 2) == Success(100)
      && ReadValue(w.store, "flowCount", 4) == Failure(OutOfRange)
  {
  }

  /** The demonstration client's opening calls: "pktsCount" is created with
      capacity 16, a second create of it asking for capacity 10 is refused and
      leaves the existing array as it was, and "bytesCount" is then created. */
  lemma PktsCountRun(s: Store)
    requires Valid(s)
    requires "pktsCount" !in s.registers && "bytesCount" !in s.registers
    ensures
      var c1 := CreateRegisterArray(s, "pktsCount", 16);
      var c2 := CreateRegisterArray(c1.store, "pktsCount", 10);
      var c3 := CreateRegisterArray(c2.store, "bytesCount", 16);
      && c1.status == Ok
      && c2 == Reply(Fail(AlreadyExists), c1.store)
      && c2.store.registers["pktsCount"] == RegisterArray("pktsCount", 16, 0, seq(16, _ => 0))
      && c3.status == Ok
      && c3.store.registers["pktsCount"] == c1.store.registers["pktsCount"]
      && c3.store.registers["bytesCount"].capacity == 16
  {
  }

  /** The demonstration client's "meterRate" calls: two writes to distinct
      slots of a fresh array give size 2 with the values in place. */
  lemma MeterRateRun(s: Store)
    requires Valid(s)
    requires "meterRate" !in s.registers
    ensures
      var c := CreateRegisterArray(s, "meterRate", 4);
      var w1 := WriteValue(c.store, "meterRate", 0, 10);
      var w2 := WriteValue(w1.store, "meterRate", 2, 50);
      && c.status == Ok && w1.status == Ok && w2.status == Ok
      && w2.store.registers["meterRate"] == RegisterArray("meterRate", 4, 2, [10, 0, 50, 0])
  {
  }

  /** Overwriting an already-written slot replaces the value but not the count. */
  lemma OverwriteKeepsSize(s: Store)
    requires Valid(s)
    requires "t" !in s.registers
    ensures
      var c := CreateRegisterArray(s, "t", 2);
      var w1 := WriteValue(c.store, "t", 0, 1);
      var w2 := WriteValue(w1.store, "t", 0, 2);
      && w1.store.registers["t"].size == 1
      && w2.store.registers["t"].size == 1
      && ReadValue(w2.store, "t", 0) == Success(2)
  {
  }
}
