# Register service: the server-side register store

The register service keeps named, fixed-capacity arrays of unsigned 32-bit
registers and answers six requests on them: create an array, delete it, get a
copy of one array, get copies of all arrays, read one item and write one item.
The server object `RegisterServiceImpl` holds two tables keyed by array name:
`registers`, which maps a name to its array (name, capacity, size, items),
and `writtenIndices`, which maps a name to the set of indices written at least
once.

This project models that object and proves what its requests promise.

- `register_store.dfy`, module `RegisterStore`, holds the value types:
  `RegisterArray`, the `Status` codes (`Ok`, `NotFound`, `AlreadyExists`,
  `OutOfRange`) and `Store`, the two tables as one value.
- The same module holds the store invariant `Invariant`:
  - both tables have the same names;
  - every array carries its own name and exactly `capacity` items;
  - only indices below the capacity are ever recorded as written.
- It also gives the meaning of each state-changing or reading request as a pure
  function (`Create`, `Delete`, `Read`, `Write`). Each one's contract covers
  its error cases, its effect on the addressed entry, "nothing else changes"
  and preservation of the invariant.
- Lemmas relate the requests to each other: write then read, create then read,
  delete then recreate, repeated writes, and the written-index set never
  affecting an answer.
- Lemmas also prove that the name order of the ordered table is a strict total
  order, and that a listing of the table in that order is unique.
- `register_server.dfy`, module `RegisterServer`, holds the class
  `RegisterServiceImpl` with the two map fields. Its request handlers change
  the fields in place (`modifies this`) and are proved against the functions
  above. The copy loop of `BuildRegisterArrayResponse`, the zero-fill loop of
  `CreateRegisterArray` and the ordered walk of `GetAllRegisterArrays` carry
  their loop invariants.
- `GetRegisterArray`, `GetAllRegisterArrays` and `ReadValue` have no `modifies`
  clause, so they provably leave the store as it was.
- A few scenario methods at the end replay short request sequences against a
  fresh server and assert the answers the contracts guarantee.

A response is a sequence of array copies. The handlers that fill one take the
response built so far and return it extended, as the server appends to the
response it is given. A read answers its status together with the value, which
is 0 when the read fails (the default of the unset field).

`size` counts successful writes, not distinct written indices. `WriteValue`
reads `size` once (register_server.cc:180) and stores `size + 1`
unconditionally (register_server.cc:189). When the index is new, it stores the
same `size + 1` again (register_server.cc:196). So every successful write
advances `size` by exactly one, repeat writes included. `Write` states this
closed form, and `WriteValue`'s postcondition proves that the server's two
stores amount to it. The conditional block at register_server.cc:193-197
suggests that `size` was meant to count distinct indices. As written, though,
the written-index set never influences any answer or any array
(`WrittenNeverObserved`), and the model follows the code
(`RepeatedWriteCountsTwice`, `RepeatedWriteScenario`). `size` is a `uint32_t`,
so the increment wraps to 0 past 2^32 - 1 (`Inc`).

Names are ordered as `std::string` compares them: the first differing
character decides, and a proper prefix comes first (`Below`). Characters stand
for the bytes of the name and are compared as unsigned values.

## Model

| member | source | states |
|---|---|---|
| RegisterStore.Inc | register_server.cc:180-189 | `size + 1` on a `uint32_t`: one more below the largest value, 0 after it |
| RegisterStore.Zeroed | register_server.cc:83-90 | a new array has the given name and capacity, size 0, exactly `capacity` items, all 0, and satisfies the per-array invariant |
| RegisterStore.Create | register_server.cc:73-95 | AlreadyExists exactly when the name is taken, and then nothing changes; otherwise the name is added to both tables with a zeroed array and an empty written set; every other entry is untouched; the invariant is preserved |
| RegisterStore.Delete | register_server.cc:106-120 | NotFound exactly when the name is absent, and then nothing changes; otherwise the name leaves both tables; every remaining entry is unchanged; the invariant is preserved |
| RegisterStore.Read | register_server.cc:132-152 | NotFound exactly when the name is absent; OutOfRange exactly when `index >= capacity`; otherwise Ok with `items[index]`, which the invariant makes a valid position |
| RegisterStore.Write | register_server.cc:165-199 | NotFound / OutOfRange under the same conditions as a read, with no change at all; on success only the addressed slot takes the value (all other slots and the length unchanged), name and capacity unchanged, size is the old size plus one (wrapping) whether or not the index was written before, the index joins the written set; other arrays untouched; the invariant is preserved |
| RegisterStore.CreateThenRead | register_server.cc:83-150 | a freshly created array reads Ok 0 at every index below its capacity |
| RegisterStore.WriteThenRead | register_server.cc:143-199 | after a successful write, reading the same index returns the written value, and every other (name, index) reads as before |
| RegisterStore.DeleteThenRecreate | register_server.cc:73-120 | after a successful delete, reads and writes of the name answer NotFound, and a create of the name succeeds with a fresh zeroed array and an empty written set |
| RegisterStore.WrittenNeverObserved | register_server.cc:178-199 | two valid stores with the same arrays but different written-index sets answer every read and write alike and end with the same arrays: the written set never affects what a client sees |
| RegisterStore.RepeatedWriteCountsTwice | register_server.cc:180-197 | two successful writes to one index advance size twice, record the index once, and a read returns the second value |
| RegisterStore.BelowAsymmetric | register_server.cc:36 | no two names are each below the other in the table's key order |
| RegisterStore.BelowTransitive | register_server.cc:36 | the table's key order is transitive |
| RegisterStore.BelowTotal | register_server.cc:36 | any two distinct names are ordered one way or the other |
| RegisterStore.LeastNameExists | register_server.cc:36 | every non-empty set of names has a least name, the next one an in-order walk of the table visits |
| RegisterStore.AscendingUnique | register_server.cc:36-39 | two strictly ascending sequences of arrays with the same elements are equal |
| RegisterStore.ListingUnique | register_server.cc:36-40 | the answer of get-all for a table (every array once, nothing else, ascending by name) is uniquely determined |
| RegisterServer.RegisterServiceImpl.constructor | register_server.cc:3-4 | a new server has two empty tables and satisfies the invariant |
| RegisterServer.RegisterServiceImpl.BuildRegisterArrayResponse | register_server.cc:6-29 | appends an exact copy (name, capacity, size, items in order) of the array under the name; appends nothing for an absent name |
| RegisterServer.RegisterServiceImpl.GetAllRegisterArrays | register_server.cc:31-41 | never fails, keeps what the response already held and appends a listing of the table: one copy of every stored array and nothing else, in ascending name order |
| RegisterServer.RegisterServiceImpl.GetRegisterArray | register_server.cc:43-62 | NotFound exactly when the name is absent, response unchanged; otherwise Ok and one copy of that array appended |
| RegisterServer.RegisterServiceImpl.CreateRegisterArray | register_server.cc:64-96 | keeps the invariant; status and new tables are those of `RegisterStore.Create` on the old tables |
| RegisterServer.RegisterServiceImpl.DeleteRegisterArray | register_server.cc:98-121 | keeps the invariant; status and new tables are those of `RegisterStore.Delete` on the old tables |
| RegisterServer.RegisterServiceImpl.ReadValue | register_server.cc:123-153 | status and value are those of `RegisterStore.Read` on the current tables; nothing is modified |
| RegisterServer.RegisterServiceImpl.WriteValue | register_server.cc:155-200 | keeps the invariant, so the unchecked written-set lookup is always defined; status and new tables are those of `RegisterStore.Write` on the old tables, so the two `size` stores amount to one increment |

## Left out

- The RPC framework and message types (server context, status objects,
  repeated-field and `add_arrays` plumbing) are left out. Responses are
  sequences of array copies, and errors are the `Status` kind.
- The human-readable error messages are not modelled; only their status kind is.
- Heap allocation and release of arrays and written-index sets are not
  modelled. Map entries own their values, which gives the same observable
  behaviour.
- Concurrency is left out: the server takes no locks, and each request is
  modelled as one atomic step.
- CreateRegisterArray's zero-fill loop counts with a signed `int` against a
  `uint32_t` capacity. For capacities above 2^31 - 1 that counter overflows,
  which C++ leaves undefined. The model fills any `uint32` capacity as if the
  counter did not overflow.
- The client wrapper that prints results and the demo driver program are I/O
  only and are not part of this model. The scenario methods replay request
  sequences like the driver's, without output.
