# Verified model of the node's codec, shared memory, peer bookkeeping and indices

This project models parts of an Avalanche node in Dafny and proves what they promise over all inputs
and all runs.

- **Codec** (`Basics`, `ByteStrings`, `Codec`, `CodecLaws`, `WireFormat`, `Packing`, `Marshalling`,
  `Unmarshalling`, `Sizes`, `Registries`, `CodecManager`): the reflection codec for every type that can be nested
  out of numbers, strings, slices, arrays, structs, pointers, maps and interfaces. `Codec` says what the wire
  format is, and `WireFormat` what that means byte by byte;
  `Marshalling` and `Unmarshalling` are the code that works on a packer, including the two passes over
  the same bytes by which a map is written. The central law is that unmarshalling accepts a byte string
  as a value exactly if the value marshals to it.
- **Shared memory of chains** (`AtomicState`, `AtomicMemory`, `Pages`, `Locks`): messages between chains
  commute whatever the order in which chains execute, queries by trait in pages, and the
  reference-counted locks as a state machine over any number of goroutines.
- **Network** (`IPTracker`, `Connections`, `Tracking`): which addresses are known, desired and gossiped, the
  protocol of peers and dialers as a state machine over the sections under `peersLock`, and the tracker over
  all calls and over all runs of that protocol.
- **Genesis** (`Genesis`): splitting and conservation of the initial supply.
- **Smaller parts** (`IDBits`, `ContainerIndex`, `Indexer`, `Health`, `Router`): bit ranges of IDs, the
  crash-safe index of accepted containers, completeness of indices over all runs of a node, health
  gauges, and the routing table with its aliases.

Objects that the source updates in place are classes, loops are loops, and each is proved against a
function or predicate on values about which the lemmas speak. Ghost parameters such as the log of an
index name the abstract state.

## Conventions

- Hashes and IDs are numbers. The shared ID of two chains is the ordered pair itself, so distinct pairs
  are taken to have distinct hashes; likewise for the hashes of keys.
- Clocks, randomness, the order in which the runtime delivers map keys, failures of the database and the
  outcome of making a bloom filter are parameters or free choices, so every statement holds for all of
  them.
- Errors are values. Where one of several errors may be reported, the contract says when there is one.
- Integers are unbounded except where the width matters: type IDs wrap around at 32 and 16 bits, amounts
  of the genesis and the indices of a range at 64, and that the rest of the genesis arithmetic does not
  wrap around is part of what is proved.
- The codec laws assume of the types of a program that none contains itself through pointers, arrays and
  struct fields without a byte in between (reading such a type does not end), and of the registry that it
  is a bijection, which `Registries.LinearEnvBijective` and `Registries.HierarchyEnvBijective` prove of
  every registry that can be reached.

## Where code and documentation differ

The model follows the code.

- `network/ip_tracker.go:126` calls the gossipable addresses a subset of the most recent tracked ones.
  Compared are timestamps only, so two addresses with one timestamp can differ:
  `IPTracker.SameTimeOtherAddress`. The contracts of `Connected` and `AddGossipableID` say exactly which
  calls break the relation, and `Tracking.Play` proves it over all calls if no node has two addresses with
  one timestamp.
- `indexer/index.go:206` and `indexer/service.md:224` allow fetching 0 containers; the code refuses 0.
- `indexer/index.go:225` says that the last index is never before the first. It is where the sum wraps
  around; `ContainerIndex.Index.GetContainerRange` says what is then returned.
- `api/server/router.go:20` says that a route which maps to a handler cannot become an alias. Only
  aliases are reserved; a base with routes can become an alias, and keeps them.
- `network/ip_tracker.go:106` says that the filter contains the most recent tracked addresses. An address is
  left out if its node has used up its entries, or if a reset fails that it needs: `IPTracker.AddressLost`.
  `Tracking.Play` proves that no other is, over all calls without a failing reset.
- The pages of `chains/atomic/state.go` cannot start behind an empty key, because an empty key also means
  the beginning of a list: `Pages.CompleteIff` gives the exact condition, and `Pages.EmptyKeyFallsBehind`
  shows that it can fail. With a limit of one the cursor never moves (`Pages.LimitOneStays`); it moves for
  exactly the other limits (`Pages.CursorMovesIff`).
- `ids/bits.go:17` speaks of the bits from start to end. A negative start is taken, but leaves out the whole
  first byte or panics; `IDBits.EqualSubset` and `IDBits.FirstDifferenceSubset` say exactly when.
- The gauges of `api/health/worker.go` do not always count the failing checks of a tag:
  `Health.Worker.RegisterCheck` gives the exact condition, `Health.NewTagOfApplicationCheck` a case, and
  `Health.Play` proves them right over all runs with the tags that do no harm.
- `Connected` of `network/ip_tracker.go`, called for a node that is gossiped already with a timestamp
  that is not newer, breaks the correspondence of list and nodes. `Tracking.TrackerOfRun` proves that the
  network never calls it so, in any run.

## Model

| member | source | states |
|---|---|---|
| `CodecLaws.UnmarshalIffMarshal` | codec/reflectcodec/type_codec.go:293-524 | a byte string unmarshals to a value of a type if and only if that value marshals to exactly that byte string: the round trip, and no second encoding is ever accepted; for every type on which reading ends, nested maps and interfaces and types that contain themselves included |
| `CodecLaws.DecEnc` | codec/reflectcodec/type_codec.go:529-757 | wherever the encoding of a value stands in a buffer, that value is read there and reading stops where the encoding ends |
| `CodecLaws.EncDec` | codec/reflectcodec/type_codec.go:304-497 | whatever is read at an offset is written as exactly the bytes that were consumed |
| `CodecLaws.KeyBytesInjective` | codec/reflectcodec/type_codec.go:424-493 | distinct keys of a map are never written alike, so that sorting by key bytes is a total order and the checked order on reading loses nothing |
| `CodecLaws.PrefixFree` | codec/reflectcodec/type_codec.go:529-757 | no encoding is a proper prefix of another one of the same type; two values with the same bytes are equal |
| `CodecLaws.EncEats` | codec/reflectcodec/type_codec.go:304-497 | a type that is known to take a byte takes one for every value |
| `CodecLaws.DecEats` | codec/reflectcodec/type_codec.go:529-757 | and reading one always moves on, so that a type that contains itself behind such a part is read in finitely many steps |
| `CodecLaws.LinkedIsRanked` | codec/reflectcodec/type_codec.go:683-694 | a struct of a byte and a pointer to itself is among the types of which the laws speak |
| `CodecLaws.EmptyArrayIsRanked` | codec/reflectcodec/type_codec.go:529-757 | and so is one with an array of no elements of itself |
| `ByteStrings.BigEndianAt` | utils/wrappers/packing.go:54-131 | every byte of a number stands in its place, the most significant one first |
| `ByteStrings.LessIffPrecedes` | codec/reflectcodec/type_codec.go:464-468 | the order of byte strings is that of the first byte in which they differ; a proper prefix comes first |
| `ByteStrings.BigEndianLess` | codec/reflectcodec/type_codec.go:464-468 | numbers of one width sort like their bytes |
| `WireFormat.BoolFormat` | codec/reflectcodec/type_codec.go:337-339 | a boolean is the byte 1 or 0; no other value is one |
| `WireFormat.UintFormat` | codec/reflectcodec/type_codec.go:310-330 | a number has an encoding if and only if it fits; it takes its width, byte for byte from the most significant one |
| `WireFormat.IntFormat` | codec/reflectcodec/type_codec.go:313-333 | likewise a signed one, as the remainder modulo the power of two |
| `WireFormat.StringFormat` | codec/reflectcodec/type_codec.go:334-336 | a string of up to 65535 bytes is its length in two bytes and itself; a longer one has no encoding |
| `WireFormat.InterfaceFormat` | codec/reflectcodec/type_codec.go:346-364 | an interface is the four bytes of the ID of the concrete type and the value, if and only if that type is registered, implements the interface and is not being written already |
| `WireFormat.PartsPlaced` | codec/reflectcodec/type_codec.go:390-423 | the encoding of each part stands where those before it end, and they fill the whole; there is one if and only if every part has one |
| `WireFormat.SliceFormat` | codec/reflectcodec/type_codec.go:365-399 | a slice is four bytes of length and its elements, each in its place; it has an encoding if and only if there are at most MaxInt32 elements, each of which has one, and none of these is empty |
| `WireFormat.ArrayFormat` | codec/reflectcodec/type_codec.go:400-412 | an array is its elements, each in its place, as many as its type says |
| `WireFormat.StructFormat` | codec/reflectcodec/type_codec.go:413-423 | a struct is its fields, each in its place |
| `WireFormat.MapFormat` | codec/reflectcodec/type_codec.go:424-493 | a map is its length and its entries, in whichever listing of the keys has their bytes in increasing order; it has an encoding if and only if there are at most MaxInt32 entries, each key and value has one, and no entry is empty |
| `WireFormat.NumbersAscend` | codec/reflectcodec/type_codec.go:464-493 | keys that are numbers stand in increasing order |
| `Packing.Packer.Expand` | utils/wrappers/packing.go:261-275 | there is room behind the offset afterwards exactly if the bytes fit into the longer of the slice and the maximum size; what stood there before stays |
| `Packing.Packer.PackFixedBytes` | utils/wrappers/packing.go:170-178 | the bytes overwrite what stands at the offset, what follows them stays; fails exactly if an error was pending or they do not fit |
| `Packing.Packer.PackUint` | utils/wrappers/packing.go:54-131 | the big-endian bytes of a number, of any width, overwrite what stands at the offset; fails exactly if an error was pending or they do not fit |
| `Packing.Packer.PackStr` | utils/wrappers/packing.go:217-225 | two bytes of length and the string; fails exactly if an error was pending, which stays, or it is longer than 65535 bytes or does not fit |
| `Packing.Packer.UnpackFixedBytes` | utils/wrappers/packing.go:182-191 | takes the next bytes; fails exactly if an error was pending or there are too few, and then does not move |
| `Packing.Packer.UnpackUint` | utils/wrappers/packing.go:65-143 | the number whose big-endian bytes stand at the offset, zero on failure |
| `Packing.Packer.UnpackBool` | utils/wrappers/packing.go:155-166 | accepts exactly the bytes 0 and 1; a pending error stays |
| `Packing.Packer.UnpackStr` | utils/wrappers/packing.go:228-231 | reads what PackStr has written; fails exactly if an error was pending, which stays, or the length or the string is cut off |
| `Marshalling.MarshalValue` | codec/reflectcodec/type_codec.go:304-346 | writes the encoding of the value at the offset and nothing else, and succeeds exactly if the value has an encoding that fits into the packer |
| `Marshalling.MarshalInterface` | codec/reflectcodec/type_codec.go:346-364 | type ID of the dynamic type, then the value; refuses nil, unregistered types and an interface nested in its own type |
| `Marshalling.MarshalSlice` | codec/reflectcodec/type_codec.go:365-399 | byte slices written at once come out like those written one by one; element encodings of zero length are refused |
| `Marshalling.RawBytes` | codec/reflectcodec/type_codec.go:386-389 | the bytes of a slice whose elements are all bytes |
| `Marshalling.MarshalAll` | codec/reflectcodec/type_codec.go:390-423 | elements and fields stand one after the other; a failure of any is a failure of all |
| `Marshalling.MarshalMap` | codec/reflectcodec/type_codec.go:424-445 | length, then entries; the result does not depend on the order in which the runtime delivers the keys |
| `Marshalling.MarshalEntries` | codec/reflectcodec/type_codec.go:446-493 | two passes over the same part of the buffer leave exactly the entries, in the order that WireFormat.MapFormat tells: increasing bytes of keys; no byte of the first pass remains |
| `Marshalling.PackKeys` | codec/reflectcodec/type_codec.go:446-462 | first pass: every key is written and its tuple delimits its bytes |
| `Marshalling.SortMapKeys` | codec/reflectcodec/type_codec.go:464-468 | sorting the tuples by the bytes they delimit is the order of the encoding |
| `Marshalling.SortKeys` | codec/reflectcodec/type_codec.go:464-468 | a sorted permutation of the tuples |
| `Marshalling.PackEntries` | codec/reflectcodec/type_codec.go:470-493 | second pass: from the rewound offset, entry by entry, over the bytes of the first pass; what is left of them is always overwritten |
| `Marshalling.PackNext` | codec/reflectcodec/type_codec.go:472-491 | one entry of the second pass: the key bytes of the first pass and the value |
| `Marshalling.PackEntry` | codec/reflectcodec/type_codec.go:473-490 | one entry takes the place of as much of the first pass; an entry of zero length is refused |
| `Unmarshalling.UnmarshalValue` | codec/reflectcodec/type_codec.go:529-588 | reads the value that the specification reads at the offset and ends where it ends, or fails where it fails |
| `Unmarshalling.UnmarshalInterface` | codec/reflectcodec/type_codec.go:651-669 | a known type ID of a type that implements the interface, then its value; refuses an interface nested in its own type |
| `Unmarshalling.UnmarshalSlice` | codec/reflectcodec/type_codec.go:589-626 | refuses more than MaxInt32 elements and elements of zero length |
| `Unmarshalling.UnmarshalArray` | codec/reflectcodec/type_codec.go:627-644 | bytes taken at once are read like those taken one by one |
| `Unmarshalling.UnmarshalBytes` | codec/reflectcodec/type_codec.go:606-611 | any number of bytes taken at once is read like that many bytes one by one |
| `Unmarshalling.UnmarshalAll` | codec/reflectcodec/type_codec.go:670-682 | elements and fields one after the other, up to the first failure |
| `Unmarshalling.UnmarshalMap` | codec/reflectcodec/type_codec.go:695-753 | accepts exactly the entries in the order that WireFormat.MapFormat tells, each key once |
| `Unmarshalling.UnmarshalEntries` | codec/reflectcodec/type_codec.go:719-751 | the loop over the entries agrees with the recursive reading of them, and the map holds each |
| `Unmarshalling.UnmarshalEntry` | codec/reflectcodec/type_codec.go:720-750 | one entry: key bytes after those before, and at least one byte |
| `Unmarshalling.UnmarshalFrom` | codec/reflectcodec/type_codec.go:501-524 | accepts exactly the byte strings that are one value with nothing behind it |
| `Sizes.SizeValue` | codec/reflectcodec/type_codec.go:94-143 | whenever the value marshals, its size is the number of bytes marshalled; a size reported as constant is that of every value of the type, and where no type contains itself through pointers, arrays and fields alone it is reported for exactly the types of constant size |
| `Sizes.SizeParts` | codec/reflectcodec/type_codec.go:144-199 | measuring only the first element is right where sizes are constant |
| `Sizes.SizeSlice` | codec/reflectcodec/type_codec.go:144-173 | the shortcut over the elements of a slice gives the size of its encoding |
| `Sizes.SizeArray` | codec/reflectcodec/type_codec.go:174-199 | the shortcut over the elements of an array gives the size of its encoding, and a size reported as constant is that of every such array |
| `Sizes.SizeStruct` | codec/reflectcodec/type_codec.go:200-219 | the sum over the fields, and a size reported as constant is that of every such struct |
| `Sizes.SizeMap` | codec/reflectcodec/type_codec.go:220-286 | the size of a map, by the shortcut for constant keys, values, both or neither |
| `Sizes.SizeEntries` | codec/reflectcodec/type_codec.go:226-285 | the four shortcuts over the entries give the size of the encoding |
| `Sizes.EntriesLength` | codec/reflectcodec/type_codec.go:220-286 | the room that a map takes is the sum over its keys and values in any order |
| `Sizes.ConstSizeIsFixed` | codec/reflectcodec/type_codec.go:94-290 | all values of a type of constant size take the same number of bytes |
| `Sizes.ArrayConst` | codec/reflectcodec/type_codec.go:174-199 | arrays of elements of constant size have constant size |
| `Sizes.StructConst` | codec/reflectcodec/type_codec.go:200-219 | structs of fields of constant size have constant size, their sum |
| `Registries.BiMap.constructor` | utils/bimap/bimap.go:36-41 | two empty maps, inverse to each other |
| `Registries.BiMap.Put` | utils/bimap/bimap.go:48-68 | the maps stay inverse to each other; exactly the pairs with the key or the value are dropped and returned, at most two |
| `Registries.BiMap.DeleteKey` | utils/bimap/bimap.go:94-103 | the maps stay inverse to each other; only the pair with the key goes |
| `Registries.BiMap.DeleteValue` | utils/bimap/bimap.go:105-114 | the maps stay inverse to each other; only the pair with the value goes |
| `Registries.PutEvictsIffTaken` | utils/bimap/bimap.go:43-68 | a new type leaves the IDs of all others alone if and only if its ID is free |
| `Registries.PutKeepsBijective` | utils/bimap/bimap.go:43-68 | types and IDs stay in one-to-one correspondence |
| `Registries.PutFresh` | utils/bimap/bimap.go:43-68 | a free ID goes to a new type, and all others keep theirs |
| `Registries.LinearStaysValid` | codec/linearcodec/codec.go:57-77 | over every sequence of registrations and skips, beyond the 32-bit wrap-around too, IDs and types correspond one-to-one |
| `Registries.LinearKeepsIDs` | codec/linearcodec/codec.go:57-77 | while the 32-bit IDs have not run out, no type ever loses its ID |
| `Registries.LinearIDs` | codec/linearcodec/codec.go:57-77 | which ID each type has: over every sequence of operations that does not use up the 32 bits, the number of types registered before it plus the number of IDs skipped before it; a type has an ID if and only if it was registered |
| `Registries.LinearCodec.constructor` | codec/linearcodec/codec.go:41-48 | no type is registered |
| `Registries.LinearCodec.SkipRegistrations` | codec/linearcodec/codec.go:57-61 | moves the next ID modulo 2^32: as LinearIDs says, the next type gets an ID that is larger by the number skipped |
| `Registries.LinearCodec.RegisterType` | codec/linearcodec/codec.go:65-77 | the object takes the step of the run about which LinearStaysValid and LinearKeepsIDs speak; a type that is known is refused and changes nothing |
| `Registries.HierarchyStaysValid` | codec/hierarchycodec/codec.go:64-97 | over every sequence of registrations, skips and new groups, beyond the wrap-around of the two 16-bit parts too, IDs and types correspond one-to-one |
| `Registries.HierarchyKeepsIDs` | codec/hierarchycodec/codec.go:64-97 | while neither groups nor the IDs of a group run out, no type ever loses its ID |
| `Registries.HierarchyIDs` | codec/hierarchycodec/codec.go:64-97 | which ID each type has: the number of groups begun before it, and within its group the number of types registered plus the number of IDs skipped before it |
| `Registries.HierarchyCodec.constructor` | codec/hierarchycodec/codec.go:48-56 | no type is registered |
| `Registries.HierarchyCodec.SkipRegistrations` | codec/hierarchycodec/codec.go:64-68 | moves the next ID modulo 2^16: as HierarchyIDs says, the next type gets an ID that is larger by the number skipped |
| `Registries.HierarchyCodec.NextGroup` | codec/hierarchycodec/codec.go:71-76 | the next group, modulo 2^16, starts at ID 0 |
| `Registries.HierarchyCodec.RegisterType` | codec/hierarchycodec/codec.go:80-97 | the object takes the step of the run about which HierarchyStaysValid and HierarchyKeepsIDs speak; a type that is known is refused and changes nothing |
| `Registries.HierarchyCodec.PackPrefix` | codec/hierarchycodec/codec.go:104-116 | the two parts are written as the one 32-bit ID of the wire format; fails exactly for an unregistered type or without room |
| `Registries.HierarchyCodec.UnpackPrefix` | codec/hierarchycodec/codec.go:118-145 | accepts exactly the 32-bit IDs of registered types that implement the interface, and returns that type |
| `Registries.SplitCode` | codec/hierarchycodec/codec.go:104-145 | two parts and one 32-bit number determine each other |
| `Registries.LinearEnvBijective` | codec/linearcodec/codec.go:57-118 | every reachable registry satisfies what the round trip of the codec needs |
| `Registries.HierarchyEnvBijective` | codec/hierarchycodec/codec.go:64-145 | every reachable registry of two-part IDs satisfies what the round trip of the codec needs |
| `CodecManager.DecodingIffEncoding` | codec/manager.go:112-161 | a byte string unmarshals to a version and a value if and only if marshalling the value under that version gives it, size limit included |
| `CodecManager.EncodingFormat` | codec/manager.go:112-134 | there is an encoding if and only if the version is registered, the value has an encoding and that with two bytes more is within the limit; these two bytes are the version, the most significant first |
| `CodecManager.Manager.constructor` | codec/manager.go:61-66 | no version is known |
| `CodecManager.Manager.RegisterCodec` | codec/manager.go:81-90 | a version is never replaced |
| `CodecManager.Manager.Size` | codec/manager.go:92-109 | whenever the value marshals, this is the length of the result |
| `CodecManager.Manager.MarshalVersioned` | codec/manager.go:112-134 | returns version and encoding and nothing else, exactly if the value marshals within the limit |
| `CodecManager.Manager.UnmarshalVersioned` | codec/manager.go:137-161 | accepts exactly what MarshalVersioned can return |
| `AtomicState.SetValueAgrees` | chains/atomic/state.go:81-119 | after a put the lists of keys by trait describe exactly the elements present |
| `AtomicState.RemoveValueAgrees` | chains/atomic/state.go:148-179 | after a removal the lists of keys by trait describe exactly the elements present |
| `AtomicState.State.constructor` | chains/atomic/state.go:41-53 | the state is the pair of its two databases |
| `AtomicState.State.Value` | chains/atomic/state.go:56-73 | an element that is present, and not one that was removed before it was put |
| `AtomicState.State.Put` | chains/atomic/state.go:81-119 | the step by step update of both databases has the effect of one put; a put of a key removed before cancels with that removal, a second put fails and changes nothing |
| `AtomicState.State.ListKey` | chains/atomic/state.go:100-106 | the loop over the traits: the key is listed under each of them once, however often a trait is given |
| `AtomicState.State.Remove` | chains/atomic/state.go:148-179 | the step by step update of both databases has the effect of one removal; it leaves a marker where nothing was put yet, and a second removal fails and changes nothing |
| `AtomicMemory.RunOutcome` | chains/atomic/state.go:75-179 | if no key is put twice and none is removed twice, every sequence of puts and removals succeeds and leaves exactly what was put and not removed, with markers for the rest, in whatever order |
| `AtomicMemory.RunFromEmpty` | chains/atomic/state.go:75-179 | from an empty store, operations without a repeated put and a repeated removal all succeed and leave the outcome of RunOutcome |
| `AtomicMemory.OutcomeIsUnique` | chains/atomic/state.go:75-179 | what remains is determined by what was put and removed: elements, markers and the order of the lists of keys |
| `AtomicMemory.RunIffBalanced` | chains/atomic/state.go:75-179 | any puts and removals, however often repeated, all succeed if and only if no key is ever two puts or two removals ahead; a key that is a put ahead has the element put last, one that is a removal ahead a marker, any other nothing |
| `AtomicMemory.NextRemains` | chains/atomic/state.go:81-179 | a put fails if and only if its key is a put ahead, a removal if and only if its key is a removal ahead |
| `AtomicMemory.Mirrored` | chains/atomic/prefixes.go:25-65 | the outbox of one chain is the inbox of the other and of nobody else; no two ordered pairs share a store |
| `AtomicMemory.SharedMemory.constructor` | chains/atomic/memory.go:34-39 | nothing is stored |
| `AtomicMemory.SharedMemory.Apply` | chains/atomic/shared_memory.go:115-165 | all requests to all peers and all batches take effect, or nothing at all; an error means that some store could not perform its operations; of the batches, the last operation on a key decides what it has, and keys without one stay |
| `AtomicMemory.SharedMemory.Get` | chains/atomic/shared_memory.go:65-83 | the values for the keys in their order, exactly if all are in the inbox |
| `AtomicMemory.ApplyPeer` | chains/atomic/shared_memory.go:138-154 | removals act on the inbox and puts on the outbox of the peer and on nothing else |
| `AtomicMemory.ApplyOps` | chains/atomic/shared_memory.go:142-154 | the operations in order, up to the first error |
| `AtomicMemory.ReplayAll` | chains/atomic/writer.go:10-22 | the operations of all batches, in order, in one |
| `AtomicMemory.BatchesWrite` | database/batch.go:82-93 | replaying batches leaves for each key what the last operation on it says: its value, or nothing; other keys keep theirs |
| `AtomicMemory.WrittenOnce` | chains/atomic/writer.go:10-22 | by that the result of a write is determined |
| `AtomicMemory.ReachesRuns` | chains/atomic/shared_memory.go:115-165 | over every run of calls by all chains, each store has seen exactly the operations meant for it |
| `AtomicMemory.OpsOfHistory` | chains/atomic/shared_memory.go:115-165 | what is put into a store depends on one chain only, what is removed from it on one other |
| `AtomicMemory.OrderIndependence` | chains/atomic/state.go:121-147 | two runs in which every chain does the same, however the chains interleave, end with identical stores |
| `AtomicMemory.NoCallFails` | chains/atomic/state.go:121-147 | wherever a run in which no chain repeats a put or a removal has got to, the next call succeeds on every store |
| `AtomicMemory.InboxHoldsPeersPuts` | chains/atomic/shared_memory.go:29-34 | over every run a chain finds an element in an inbox if and only if the peer put it there and the chain has not removed it |
| `AtomicMemory.RunAgrees` | chains/atomic/state.go:41-53 | lists of keys and elements agree after any successful operations on a store that agrees |
| `AtomicMemory.ReachableAgrees` | chains/atomic/state.go:41-53 | lists of keys and elements agree in every reachable memory, without any assumption on the callers |
| `Pages.SortTraits` | chains/atomic/state.go:208-210 | the traits of a query, sorted |
| `Pages.AppendTraitKeys` | chains/atomic/state.go:243-270 | adds the keys of one list that are new, in order, until the list or the limit ends; the last key read is the cursor |
| `Pages.GetKeys` | chains/atomic/state.go:199-236 | a page holds the distinct keys of an initial part of the iteration that goes on from the cursor, as many as the limit allows, and returns the cursor behind it; for a limit of zero or less an empty page, with the cursor that the code gives it |
| `Pages.GetSortedKeys` | chains/atomic/state.go:204-236 | page and cursor of GetKeys for traits that are sorted already; a trait given twice is read once |
| `Pages.ReadTrait` | chains/atomic/state.go:211-232 | one trait more of the iteration is read; nothing is left of the limit exactly when this ends the page |
| `Pages.ReadsUnique` | chains/atomic/state.go:195-236 | how far a page reads is determined by the entries and the limit |
| `Pages.IsReadIff` | chains/atomic/state.go:199-270 | what a query reads: exactly the keys listed under one of its traits, without the traits before the first one and the keys before the first key |
| `Pages.ReadInOrder` | chains/atomic/state.go:199-270 | and in which order: by trait, and under one trait as its list has them |
| `Pages.PageBounds` | chains/atomic/state.go:199-270 | a page has at most as many keys as asked for, none of them twice, and all that is left if it is not full |
| `Pages.EndIsReached` | chains/atomic/state.go:199-236 | going on from a page that was not full reads nothing but the last key again |
| `Pages.NoKeysRead` | chains/atomic/state.go:199-236 | the cursor of a request for no keys is one from which everything is still to be read |
| `Pages.AllButLastSkipped` | chains/atomic/state.go:199-236 | that of a request for fewer than none goes to the last trait |
| `Pages.SortedDistinct` | chains/atomic/state.go:208-211 | sorting and skipping repetitions gives the strictly increasing list of the traits |
| `Pages.PagesCover` | chains/atomic/state.go:195-236 | the pages from cursor to cursor with a limit of two or more hold together exactly the keys of the iteration |
| `Pages.ReadPages` | chains/atomic/state.go:195-236 | calling GetKeys again and again from the cursor that it returned ends, and its pages are exactly those of PagesCover and CompleteIff |
| `Pages.NextPage` | chains/atomic/state.go:195-236 | a page of GetKeys is the first of these pages, the others follow from its cursor, and a full page leaves less to read |
| `Pages.LimitOneStays` | chains/atomic/state.go:195-236 | with a limit of one a page that starts at an entry is that entry alone, and the cursor returned is the one given |
| `Pages.CursorMovesIff` | chains/atomic/state.go:195-236 | the cursor of a full page that starts at an entry has moved if and only if the limit is not one |
| `Pages.CompleteIff` | chains/atomic/state.go:199-270 | the pages of every query from the beginning hold exactly the keys with one of its traits if and only if no list has the empty key behind its head |
| `Pages.OneTraitMisses` | database/linkeddb/linkeddb.go:241-252 | where a list has the empty key behind its head, a query for that trait alone misses the head |
| `Pages.EmptyKeyFallsBehind` | chains/atomic/state.go:81-119 | such a list comes about by a put of the empty key and one of any other key with the same trait |
| `Pages.PageKeysPresent` | chains/atomic/shared_memory.go:104-111 | no key on a page lacks its element |
| `Pages.Indexed` | chains/atomic/shared_memory.go:85-113 | the values of a page, in its order; never an error while lists and elements agree |
| `Pages.ValuesOf` | chains/atomic/shared_memory.go:104-111 | the values for the keys, exactly if all are there |
| `Locks.Memory.constructor` | chains/atomic/memory.go:34-39 | no lock exists |
| `Locks.Memory.Make` | chains/atomic/memory.go:71-82 | one more reference to the mutex of the shared ID, which is a new one only if there was none |
| `Locks.Memory.Release` | chains/atomic/memory.go:88-101 | one reference less, the last one drops the mutex; the panic on an unknown lock is told apart and changes nothing |
| `Locks.RunIsValid` | chains/atomic/memory.go:53-101 | in every state of every run of any number of goroutines reference counts are the numbers of goroutines that wait for or hold the mutex, and nobody has the wrong one |
| `Locks.MutualExclusion` | chains/atomic/memory.go:53-67 | at most one goroutine uses the database of a shared ID, although mutexes are dropped and made anew |
| `Locks.OnlyBlocked` | chains/atomic/memory.go:88-101 | a goroutine can take its next step if and only if it does not wait for a held mutex: no release panics and no unlock is fatal |
| `Locks.NoDeadlock` | chains/atomic/shared_memory.go:116-136 | while a goroutine has not finished some goroutine can go on, because shared IDs are locked in increasing order |
| `Locks.Unblocked` | chains/atomic/shared_memory.go:116-136 | from any blocked goroutine the chain of holders leads to one that is not blocked |
| `Locks.NoLeak` | chains/atomic/memory.go:88-101 | when all calls are over no lock is left |
| `Locks.CallsEnd` | chains/atomic/shared_memory.go:115-165 | every move of a goroutine, whatever the others do in between, uses up one of the steps that it has left |
| `Locks.LeftIn` | chains/atomic/shared_memory.go:115-165 | at most four for each shared ID and one more are left, and none exactly when the call has finished; with NoDeadlock every call ends |
| `Locks.CallKeepsValid` | chains/atomic/shared_memory.go:116-127 | a call that sorts the shared IDs it is going to lock keeps the invariant |
| `Locks.WantKeepsValid` | chains/atomic/memory.go:71-82 | taking a reference and waiting keeps the invariant |
| `Locks.LockKeepsValid` | chains/atomic/memory.go:53-57 | acquiring the mutex keeps the invariant |
| `Locks.ReturnKeepsValid` | chains/atomic/shared_memory.go:132-155 | leaving the call at any point keeps the invariant |
| `Locks.ReleaseKeepsValid` | chains/atomic/memory.go:88-101 | dropping a reference keeps the invariant |
| `Locks.UnlockKeepsValid` | chains/atomic/memory.go:64-67 | unlocking after the reference is dropped keeps the invariant |
| `IPTracker.Tracker.constructor` | network/ip_tracker.go:43-79 | nothing is tracked, and the invariant holds |
| `IPTracker.Tracker.AddGossipableIP` | network/ip_tracker.go:358-362 | appends to the list and indexes the new entry |
| `IPTracker.Tracker.RemoveGossipableIP` | network/ip_tracker.go:364-381 | swapping in the last entry leaves list and index inverse to each other, without the node and with everything else |
| `IPTracker.Tracker.ResetBloom` | network/ip_tracker.go:442-470 | the new filter holds the most recent address of every tracked node, one addition each; where none can be made, the old one stays |
| `IPTracker.Tracker.UpdateMostRecentTrackedIP` | network/ip_tracker.go:327-356 | no node ever has more than two entries in the filter and the additions count them; a full filter is replaced before anything else is added; unless a reset fails, the new address is in the filter if its node had room |
| `IPTracker.Tracker.Refill` | network/ip_tracker.go:337-350 | a full filter is replaced by one with all addresses; if none can be made, the address is lost and the filter stays |
| `IPTracker.FilterGrows` | network/ip_tracker.go:352-355 | about filters as values: one more entry for a node with room keeps the counts right and every address covered |
| `IPTracker.Tracker.TryAddIP` | network/ip_tracker.go:227-253 | how the address compares with the known one, and what follows from that |
| `IPTracker.Tracker.AddIP` | network/ip_tracker.go:177-203 | an address is taken over exactly if ShouldVerifyIP asked for it; the list of gossipable addresses stays exact, and among the most recent ones |
| `IPTracker.Tracker.TakeIP` | network/ip_tracker.go:198-203 | the addresses, the filter and the list afterwards; the whole invariant is kept |
| `IPTracker.Tracker.Connected` | network/ip_tracker.go:217-225 | address and filter change as for an address heard of, with the same reset; the list of gossipable addresses stays exact if and only if the node is not in it or brings a newer address; its addresses stay among the most recent ones if and only if this is not a gossipable node with another address of the known time |
| `IPTracker.Tracker.ConnectNew` | network/ip_tracker.go:217-225 | for a node that is not connected the whole invariant is kept |
| `IPTracker.Tracker.RecordConnected` | network/ip_tracker.go:221-222 | records the connection; addresses and filter change as for an address heard of, and a newer address removes the old entry from the list |
| `IPTracker.Tracker.ListConnected` | network/ip_tracker.go:222-224 | lists the address if it is up to date; what this does to exactness and to the relation with most recent addresses is the exact condition of Connected |
| `IPTracker.ListAfterConnect` | network/ip_tracker.go:217-253 | about lists as values: after a connection the list is exact if and only if the node was not in it or the address is newer |
| `IPTracker.Tracker.Disconnected` | network/ip_tracker.go:255-261 | the node leaves the connected ones and the list, which stays exact and among the most recent addresses |
| `IPTracker.Tracker.AddTrackableID` | network/ip_tracker.go:271-285 | a node that is connected brings its address; the list stays exact and among the most recent addresses |
| `IPTracker.Tracker.AddGossipableID` | network/ip_tracker.go:287-303 | the list stays exact with the node; its addresses stay among the most recent ones if and only if the node is not newly gossiped while connected with another address of the known time |
| `IPTracker.Tracker.ListGossipable` | network/ip_tracker.go:287-303 | the node enters the list exactly if it is connected with an address of the known time |
| `IPTracker.Tracker.AddBoth` | network/ip_tracker.go:263-269 | tracking and gossiping a node keeps addresses, filter and list exact; the addresses stay among the most recent ones under the condition of AddGossipableID |
| `IPTracker.Tracker.ManuallyTrack` | network/ip_tracker.go:138-144 | a node tracked by hand brings the address it is connected with; sets of nodes, addresses, filter and list keep the whole invariant |
| `IPTracker.Tracker.ManuallyGossip` | network/ip_tracker.go:151-160 | a node gossiped by hand is listed exactly if it is connected with its latest address; the whole invariant is kept; the addresses stay among the most recent ones under the condition of AddGossipableID |
| `IPTracker.Tracker.OnValidatorAdded` | network/ip_tracker.go:263-269 | a new validator is tracked and gossiped, with the address it is connected with; the whole invariant is kept; the addresses stay among the most recent ones under the condition of AddGossipableID |
| `IPTracker.Tracker.OnValidatorRemoved` | network/ip_tracker.go:307-325 | the whole invariant is kept; a node tracked by hand stays tracked, one gossiped by hand stays gossiped |
| `IPTracker.Tracker.Undesire` | network/ip_tracker.go:315-324 | a node not gossiped by hand leaves the list, and is forgotten unless tracked by hand; addresses, filter and list stay exact |
| `IPTracker.Tracker.StopGossip` | network/ip_tracker.go:315-316 | the list stays exact without the node |
| `IPTracker.Tracker.StopTracking` | network/ip_tracker.go:322-324 | the most recent address of a node that is not gossiped can be forgotten |
| `IPTracker.Tracker.GetGossipableIPs` | network/ip_tracker.go:383-418 | distinct nodes of the list, none excepted, and all eligible ones if fewer are returned than asked for |
| `IPTracker.FilterTotal` | network/ip_tracker.go:105-113 | the filter has as many entries as additions were counted, at most two for each node |
| `IPTracker.SubsetAfterConnect` | network/ip_tracker.go:217-253 | about lists as values: a connection keeps all listed addresses most recent if and only if it is not that of a gossipable node with another address of the known time |
| `IPTracker.SubsetAfterGossip` | network/ip_tracker.go:287-303 | about lists as values: a node that becomes gossipable keeps them so if and only if it is not connected with another address of the known time |
| `IPTracker.SubsetAfterNews` | network/ip_tracker.go:227-253 | a newer address keeps them so, since it removes the old one of its node |
| `IPTracker.SubsetKept` | network/ip_tracker.go:255-325 | so does everything that brings no gossipable node and no other address |
| `IPTracker.SubsetBoth` | network/ip_tracker.go:263-303 | about lists as values: tracking a node just before it becomes gossipable changes nothing about the condition |
| `IPTracker.SameTimeOtherAddress` | network/ip_tracker.go:125-126 | a tracker, driven through its methods, that gossips an address that is not among the most recent ones |
| `IPTracker.AddressLost` | network/ip_tracker.go:337-350 | a tracker, driven through its methods, whose filter misses an address because a reset failed |
| `Tracking.Play` | network/ip_tracker.go:138-418 | whatever methods of the tracker are called in whatever order, as long as no node connects that is connected: the whole invariant holds, and exactly the right nodes are connected; unless a reset has failed since the filter was last made anew, the filter holds the most recent address of every node with fewer than two entries, also where the update itself made the reset; if no node has two addresses of one time, all gossiped addresses are most recent ones |
| `Tracking.Step` | network/ip_tracker.go:138-325 | each call keeps the invariant, changes who is connected as it says, brings in no address but its own, and loses no address from the filter unless its reset fails |
| `Tracking.AddressesAgree` | network/ip_tracker.go:120-127 | while no node has two addresses of one time, an exact list holds most recent addresses only |
| `Connections.UpgradeKeepsValid` | network/network.go:998-1056 | a new peer keeps the invariant of the connection protocol |
| `Connections.ConnectedKeepsValid` | network/network.go:430-449 | the move from connecting to connected, which stops the dialer, keeps the invariant of the connection protocol |
| `Connections.NotifyKeepsValid` | network/network.go:451-468 | each call to tracker and router, made outside the lock, keeps the invariant of the connection protocol |
| `Connections.DisconnectedKeepsValid` | network/network.go:498-510 | looking up the set in which a leaving peer is keeps the invariant of the connection protocol |
| `Connections.LeftConnectingKeepsValid` | network/network.go:770-790 | leaving from the handshake, and the dialer that may follow, keeps the invariant of the connection protocol |
| `Connections.LeftConnectedKeepsValid` | network/network.go:792-809 | leaving after the handshake, and the dialer that may follow, keeps the invariant of the connection protocol; LeftConnectedDoes says what it does |
| `Connections.TrackKeepsValid` | network/network.go:602-675 | tracking an address, where a new one replaces and stops the old one, keeps the invariant of the connection protocol |
| `Connections.DialerKeepsValid` | network/network.go:830-941 | the end of a dialer keeps the invariant of the connection protocol |
| `Connections.CloseKeepsValid` | network/network.go:1069-1100 | shutting down, which stops all dialers, keeps the invariant of the connection protocol |
| `Connections.UpgradeDoes` | network/network.go:998-1056 | a connection becomes a peer in its handshake if and only if its node has none and the network is open; nothing else changes |
| `Connections.ConnectedDoes` | network/network.go:430-449 | the node is connected, no longer connecting, and dialed no more; all others are as before |
| `Connections.DisconnectedDoes` | network/network.go:498-510 | a peer leaves from where its phase says that it is |
| `Connections.NotifyDoes` | network/network.go:451-468 | one listener is told, of the node of this peer: on connecting as on leaving the tracker first and then the router |
| `Connections.LeftConnectingDoes` | network/network.go:770-790 | the node is in neither set and its old dialer is stopped; it is dialed anew if and only if it is wanted and was to be dialed before; nothing changes for other nodes |
| `Connections.LeftConnectedDoes` | network/network.go:792-809 | the node is in neither set; it is dialed, with a new entry, if and only if it is wanted; nothing changes for other nodes |
| `Connections.TrackDoes` | network/network.go:624-675 | a new address replaces the entry of a node that is not connected, whose old dialer stops |
| `Connections.ManuallyTrackDoes` | network/network.go:602-622 | a node is dialed unless it is connected or dialed already |
| `Connections.DialerDoes` | network/network.go:830-941 | a dialer ends; one that finds its node unwanted takes the entry with it |
| `Connections.CloseDoes` | network/network.go:1069-1100 | afterwards every dialer is stopped and no peer comes any more |
| `Connections.PhasesFollow` | network/network.go:430-510 | from which phase a peer can move to which, and that it can: handshake, connected, told to tracker and router, leaving, told again, gone; no peer is stuck and none skips a phase |
| `Connections.StepKeepsValid` | network/network.go:430-1100 | every step of any peer, dialer or caller keeps the invariant |
| `Connections.RunIsValid` | network/network.go:430-1100 | the invariant of the connection protocol holds in every state of every run |
| `Connections.SetsAreDisjoint` | network/network.go:430-449 | no node is connecting and connected, and no connected node is dialed |
| `Connections.OneDialer` | network/tracked_ip.go:35-75 | a dialer that is not stopped works for the current entry of its node, so no node has two |
| `Connections.OnePeer` | network/network.go:1016-1056 | at most one peer of a node is alive, and it is found where Connected and Disconnected look for it |
| `Connections.ListenersAlternate` | network/network.go:428-510 | tracker and router are told of connections and disconnections of a node strictly in turn, and what they last heard is right |
| `Tracking.SameNotices` | network/network.go:428-510 | calls of the tracker with the notices of a run of the network never connect a node that is connected |
| `Tracking.TrackerOfRun` | network/network.go:428-510 | in every state of every run of the network, a tracker that has had its notices, between any other calls, is valid, agrees on who is connected and, unless a reset has failed, covers all addresses in its filter |
| `Genesis.CompleteParts` | genesis/genesis.go:499-519 | the parts that one locked amount completes have exactly the weight, and the entries that Entries tells; no coin is lost |
| `Genesis.PlaceUnlock` | genesis/genesis.go:498-529 | one locked amount goes on in order from part to part, as entries where the parts cut it; one of nothing leaves no entry |
| `Genesis.PlaceUnlocks` | genesis/genesis.go:491-530 | all locked amounts of an allocation go on in order from part to part, cut where Entries tells, no coin lost or added |
| `Genesis.PlaceAllocation` | genesis/genesis.go:491-534 | an allocation is handed out in order, coin by coin and entry by entry, with its addresses and locktimes |
| `Genesis.PlaceAll` | genesis/genesis.go:488-535 | parts and rest together are the coins of the allocations in order, and each has exactly the entries that Entries tells |
| `Genesis.TotalAmount` | genesis/genesis.go:478-483 | the total is the number of coins modulo 2^64 |
| `Genesis.NodeWeight` | genesis/genesis.go:485-485 | the share of each part is that of the true total, if it fits into 64 bits |
| `Genesis.SplitAllocations` | genesis/genesis.go:477-538 | the parts cut the sequence of all locked coins consecutively, each but the last with the total divided by their number; entry by entry, a part has what overlaps with it of each locked amount; as many parts as asked for exactly if there is anything to split; for no parts a division by zero |
| `Genesis.Overlap` | genesis/genesis.go:498-529 | what a part gets of a locked amount is the overlap of the two; that is an entry of nothing only if the amount begins where the part ends, or the part is empty |
| `Genesis.StartIs` | genesis/genesis.go:485-519 | part k begins behind k times the weight |
| `Genesis.SplitDone` | genesis/genesis.go:485-538 | what the last part completes is such a split |
| `Genesis.EnoughParts` | genesis/genesis.go:477-538 | the remainder of the division never costs a part |
| `Genesis.CutsConsecutively` | genesis/genesis.go:477-538 | parts of equal weight are consecutive pieces of what they join to |
| `Genesis.InitialSupply` | genesis/config.go:143-159 | the exact supply, if and only if it fits into 64 bits |
| `Genesis.AddAllocation` | genesis/config.go:146-157 | adds one allocation to the supply, if and only if the sum fits into 64 bits |
| `Genesis.AllocationOutputs` | genesis/genesis.go:365-381 | one output for each locked amount, with exactly the coins of the allocation |
| `Genesis.UnstakedOutputs` | genesis/genesis.go:356-382 | the P-chain gets one output for each locked amount, unless of nothing, of addresses that are not staked; the rest is put aside in order |
| `Genesis.StakeOutputs` | genesis/genesis.go:397-416 | a stake has one output for each entry of its part, and exactly its coins |
| `Genesis.Stakes` | genesis/genesis.go:387-436 | every staker gets its part, output by output |
| `Genesis.SelectCoins` | genesis/genesis.go:356-360 | the staked coins and the others are together all locked coins, each as often |
| `Genesis.SortAllocations` | genesis/genesis.go:291-296 | a sorted permutation, with the same sum |
| `Genesis.HoldersOf` | genesis/genesis.go:290-310 | holders of the X-chain for the positive amounts only, in increasing order of amounts and of addresses where these are equal; they sum to all initial amounts |
| `Genesis.FromConfig` | genesis/genesis.go:272-475 | conservation: X-chain holders, P-chain outputs and stakes add up to the initial supply, and every locked coin is in exactly one output or stake; the P-chain has one output for each locked amount, each stake the entries of its part, and holders stand in order; of what the amounts decide: an error if and only if the supply overflows or there are fewer staked coins than stakers, a panic if and only if there are no stakers, or several with nothing to share |
| `Genesis.PaidInFull` | genesis/genesis.go:356-436 | in amounts: that every locked coin is handed out once means that every owner is paid, for every locktime, exactly what is locked for it, and this is so if and only if the coins agree |
| `Genesis.StakeParts` | genesis/genesis.go:384-436 | the stakes of all stakers cut the staked coins consecutively, with exactly the outputs that Entries tells; one lacks its part if and only if there are no stakers, or several with nothing to share |
| `Genesis.Weight` | vms/platformvm/api/static_service.go:255-288 | the weight of a validator is the number of its coins, if it fits |
| `Genesis.HaveWeight` | vms/platformvm/api/static_service.go:254-292 | no validator is refused for lack of weight if and only if there are as many coins as validators |
| `Genesis.EnoughStake` | vms/platformvm/api/static_service.go:290-292 | about values: every share of a split has a coin if and only if there are as many coins as shares |
| `IDBits.EqualSubset` | ids/bits.go:21-62 | the masked comparison of bytes holds if and only if all bits of the range agree, or the range is empty, and never beyond the last bit; a start less than a byte before the first bit skips the whole first byte, and an earlier one panics if and only if the whole bytes compared before that do not differ |
| `IDBits.EqualBefore` | ids/bits.go:30-59 | the comparison of whole bytes decides between false and the panic on a byte that is not there |
| `IDBits.EqualByte` | ids/bits.go:44-53 | within one byte under both masks: exactly the bits of the range are compared |
| `IDBits.EqualBytes` | ids/bits.go:33-61 | over several bytes: the end of the first, all between and the beginning of the last |
| `IDBits.FirstDifferenceSubset` | ids/bits.go:67-128 | finds the least index in the range where the IDs differ, if and only if there is one; panics if and only if a range within the ID starts a byte or more before the first bit |
| `IDBits.FirstInMany` | ids/bits.go:97-124 | over several bytes: the end of the first, all between and the beginning of the last, in this order |
| `IDBits.FirstUnderMask` | ids/bits.go:87-105 | within one byte under a mask: the least index of the masked range where the IDs differ, if and only if there is one |
| `IDBits.FirstInterior` | ids/bits.go:107-115 | over whole bytes: the least index where the IDs differ, if and only if there is one |
| `IDBits.FoundIffNotEqual` | ids/bits.go:21-128 | of both functions on the same arguments, where neither panics: a difference is found if and only if the IDs are not equal on the range, precisely while the range does not exceed the ID or is empty |
| `IDBits.StartMaskSelects` | ids/bits.go:41-41 | the shifted byte selects exactly the bits from k on |
| `IDBits.StopMaskSelects` | ids/bits.go:42-42 | the shifted one less one selects exactly the bits up to k |
| `IDBits.BothMasksSelect` | ids/bits.go:46-46 | both masks together select exactly the bits between |
| `IDBits.SameMasked` | ids/bits.go:49-52 | bytes are equal under a mask if and only if their selected bits are |
| `IDBits.ShiftedBit` | ids/id.go:121-139 | shifting a byte down brings the bit asked for to the lowest place |
| `IDBits.TrailingZeros` | ids/bits.go:94-95 | the least bit that is set |
| `ContainerIndex.Index.constructor` | indexer/index.go:63-97 | a restart finds the log that was committed |
| `ContainerIndex.Index.Accept` | indexer/index.go:113-162 | the container is appended once, or nothing is committed: wherever a write fails, the base still holds the old log |
| `ContainerIndex.LogGrows` | indexer/index.go:146-159 | the three writes together keep the two maps inverse bijections on the indices of the log |
| `ContainerIndex.LogIsUnique` | indexer/index.go:44-58 | a database stands for at most one log |
| `ContainerIndex.Index.GetContainerByIndex` | indexer/index.go:169-201 | the container at the index of the log, or an error beyond it |
| `ContainerIndex.Index.GetContainerRange` | indexer/index.go:203-239 | the requested piece of the log, cut at its end, with every error case; where the last index wraps around, as many empty containers as asked for |
| `ContainerIndex.Index.Fetch` | indexer/index.go:226-239 | fills a slice of the given length with the containers of the range in order; an empty range leaves it empty |
| `ContainerIndex.RangeLength` | indexer/index.go:224-228 | the length of the range, computed with 64-bit wrap-around in signed integers, is right for every range |
| `ContainerIndex.Index.GetIndex` | indexer/index.go:242-247 | the place of the container in the log, exactly if it was accepted |
| `ContainerIndex.Index.GetContainerByID` | indexer/index.go:249-261 | the container with the ID, exactly if it was accepted |
| `ContainerIndex.Index.GetLastAccepted` | indexer/index.go:263-278 | the end of the log |
| `ContainerIndex.Play` | indexer/index.go:63-162 | real indices, driven through any sequence of acceptances, failures at any write and restarts, hold the log of these events |
| `ContainerIndex.LogIsFirstAcceptances` | indexer/index.go:113-162 | that log lists every accepted container once, in the order of first acceptance, with the content of that first time |
| `Indexer.NodeIndexer.constructor` | indexer/indexer.go:69-91 | a run starts, and remembers whether the node ran before |
| `Indexer.NodeIndexer.RegisterChain` | indexer/indexer.go:132-307 | the object takes the step of the run about which the lemmas of the module speak, through all branches that refuse, mark, index or close, with failing reads and writes and VMs of unexpected type; IndexingCloses and NotIndexingCloses say what that step is, in terms of what happened before |
| `Indexer.NodeIndexer.CreateIndices` | indexer/indexer.go:246-307 | blocks are indexed first, vertices and transactions only for a DAG; the first failure closes the indexer |
| `Indexer.NodeIndexer.Close` | indexer/indexer.go:351-387 | no registration is taken after it |
| `Indexer.AlwaysValid` | indexer/indexer.go:188-230 | over all runs, a chain marked as incomplete in an earlier run is recognised as such |
| `Indexer.IndexedIsComplete` | indexer/indexer.go:158-230 | where incomplete indices are not allowed, a chain has an index only if no run, this one included, ever missed it |
| `Indexer.NothingMissed` | indexer/indexer.go:132-307 | registering a chain of the primary network ends in an index, in a mark or in the end of the indexer, never silently; while the indexer stays open, exactly a DAG also has indices of vertices and transactions |
| `Indexer.StaysComplete` | indexer/indexer.go:188-201 | a chain once indexed is never marked as incomplete while that is not allowed |
| `Indexer.MarksStay` | indexer/indexer.go:389-395 | a mark is never withdrawn, whatever runs follow |
| `Indexer.FlagsRemember` | indexer/indexer.go:389-418 | what is kept between runs: a chain is marked as incomplete exactly if an earlier registration marked it, and as indexed exactly if one indexed it |
| `Indexer.HasRunBefore` | indexer/indexer.go:420-427 | that the node has run is kept exactly if there was an earlier start |
| `Indexer.IndexingCloses` | indexer/indexer.go:159-307 | a run that indexes closes on a chain if and only if a read or write that it needs fails, the VM has the wrong type, or incomplete indices are not allowed and an earlier run has missed the chain; else the chain is indexed |
| `Indexer.NotIndexingCloses` | indexer/indexer.go:159-217 | a run that does not index closes on a chain if and only if a read or write that it needs fails, or incomplete indices are not allowed and an earlier run has indexed the chain; else the chain is marked |
| `Indexer.OthersIgnored` | indexer/indexer.go:136-157 | chains of other networks, chains that are indexed already and a closed indexer change nothing |
| `Indexer.OtherChains` | indexer/indexer.go:132-307 | a registration touches no other chain |
| `Indexer.StartsAndEnds` | indexer/indexer.go:69-91 | a start opens an indexer without indices that goes on with what was kept; an end changes nothing that is kept |
| `Health.Worker.constructor` | api/health/worker.go:54-69 | nothing is registered, and the invariant holds |
| `Health.Worker.AddToAll` | api/health/worker.go:273-280 | every registered tag, and no other, is changed by the amount |
| `Health.Worker.AddToListed` | api/health/worker.go:287-299 | each tag is changed as often as it is listed |
| `Health.Worker.UpdateMetrics` | api/health/worker.go:270-307 | the combined effect on all gauges |
| `Health.Worker.Enroll` | api/health/worker.go:88-106 | checks, tags and results stay consistent |
| `Health.Worker.RegisterCheck` | api/health/worker.go:71-119 | errors leave everything unchanged; the gauges stay exact if and only if an application check brings no new tag while one fails, and any other check lists no tag twice |
| `Health.Registration` | api/health/worker.go:71-119 | about values: a registration keeps the gauges exact if and only if an application check brings no new tag while one fails, and any other check lists no tag twice |
| `Health.ApplicationRegistered` | api/health/worker.go:271-285 | registering an application check keeps the gauges exact if and only if none fails or all its tags are known |
| `Health.OtherRegistered` | api/health/worker.go:286-306 | registering any other check keeps the gauges exact if and only if it lists no tag twice |
| `Health.NewTagOfApplicationCheck` | api/health/worker.go:271-285 | a worker, driven through its methods, whose gauges are wrong |
| `Health.Worker.RunCheck` | api/health/worker.go:231-263 | every gauge goes on counting exactly the failing checks of its tag |
| `Health.RunMetrics` | api/health/worker.go:233-262 | about values: running a check keeps every gauge and the count of failing application checks exact |
| `Health.RunExact` | api/health/worker.go:270-307 | the changes to the gauges are those of the numbers of failing checks |
| `Health.RunOne` | api/health/worker.go:270-307 | the gauge of one tag, before and after a run |
| `Health.Worker.Results` | api/health/worker.go:137-164 | exactly the checks with one of the tags and the application checks; healthy exactly if none of them fails |
| `Health.GaugeTellsHealth` | api/health/worker.go:137-164 | while gauges are exact, the gauge of a tag is the number of failing results that the query for it returns, and zero if and only if the query is healthy |
| `Health.ContiguousFailures` | api/health/worker.go:233-243 | after any runs of a check its result tells the exact length of the last series of failures and when it began |
| `Health.Play` | api/health/worker.go:71-263 | whatever is registered and run in whatever order, every gauge counts exactly the failing checks of its tag, if application checks list no other tag and no other check lists a tag twice; every result is the one that ContiguousFailures tells of the runs of its check since it was registered |
| `Health.PlainKeepsCount` | api/health/worker.go:71-119 | such registrations always meet the condition of RegisterCheck |
| `Router.Table.constructor` | api/server/router.go:33-40 | no routes, no aliases |
| `Router.Table.GetHandler` | api/server/router.go:49-62 | the handler, or which of the two parts is unknown |
| `Router.Table.ForceAddRouter` | api/server/router.go:81-110 | the endpoint is added to the base and to everything that a path of aliases leads to from it, and to nothing else; nothing is lost; it ends even if aliases form a cycle; an error is returned if and only if the endpoint comes to somebody who has it, or to somebody twice |
| `Router.AddedExactly` | api/server/router.go:81-110 | the endpoint is added to exactly the bases to which a path of aliases leads, from one that was asked for, along which nobody had it |
| `Router.PutAdded` | api/server/router.go:81-110 | the base and then its aliases: together what forceAddRouter does |
| `Router.ProperMore` | api/server/router.go:101-108 | serving one more base goes well if and only if both parts do |
| `Router.ProperPut` | api/server/router.go:92-108 | a base hands the endpoint on without an error if and only if its aliases take it without one |
| `Router.Table.AddRouter` | api/server/router.go:64-79 | aliases are refused; every base and its aliases go on sharing their endpoints; an error for an existing endpoint if and only if the endpoint comes to somebody who has it, or to somebody twice |
| `Router.Table.AddAlias` | api/server/router.go:112-141 | all aliases or none; afterwards each has all routes of the base, and one without routes of its own has exactly these; every new route is one of the base, with its handler, and reached from a new alias; an error for an existing endpoint if and only if one of the routes comes to somebody who has it, or to somebody twice |
| `Router.Table.ServeAliases` | api/server/router.go:130-140 | the loop that gives the routes of the base to new aliases, and no other routes to anybody; whatever the order of endpoints, the error is the same |
| `Router.Table.AddToAll` | api/server/router.go:133-137 | an endpoint is added to all listed bases and to everything that a path of aliases leads to from them, and nothing else changes; an error if and only if the endpoint comes to somebody who has it, or to somebody twice |
| `Router.OneMoreAdded` | api/server/router.go:133-137 | serving one more base keeps what is being established for several |
| `Router.AddedShared` | api/server/router.go:81-110 | an endpoint that is added anywhere is shared with all aliases |
| `Router.AddedMirrors` | api/server/router.go:64-79 | an alias without routes of its own keeps mirroring its base |
| `Router.NewAliases` | api/server/router.go:118-128 | new aliases leave everything intact but for the endpoints they have to be given |
| `Router.EndpointShared` | api/server/router.go:130-139 | once new aliases have been given an endpoint of their base, base and aliases share it and mirrors are exact again |
| `Router.EndpointServed` | api/server/router.go:130-139 | giving one more endpoint adds no route but those of the base |
| `Router.Play` | api/server/router.go:64-141 | after any sequence of calls, a base has an endpoint if and only if some call that was not refused added it to a base from which aliases lead there, whichever came first; its handler is that of such a call |
| `Router.PlayRoute` | api/server/router.go:64-79 | one more route keeps that |
| `Router.PlayAlias` | api/server/router.go:112-141 | and so do new aliases |

## Left out

- Sizes.SizeValue: says nothing about the size reported for a value that cannot be marshalled; the code reports sizes for some of these.
- CodecManager.Manager.Size: likewise.
- ContainerIndex.Index.GetContainerRange: assumes fewer than 2^64 containers, since the next index is a uint64.
- Genesis.SplitAllocations: for a total that fits into 64 bits, which FromConfig has checked before; Genesis.TotalAmount alone is stated for all totals.
- Genesis.FromConfig: errors that do not come from amounts, such as end times of staking and formats of addresses, are not modelled.
- Which fields of a struct are serialized (struct tags), and unexported fields.
- Types that contain themselves through pointers, arrays and struct fields without a byte in between; unmarshalling one does not end.
- Maps with pointer keys compare keys by what they point to; nil and empty slices and maps are one value.
- What a destination holds after a failed unmarshal, and sizes beyond the range of int.
- The databases below shared memory and index: linked lists, prefixes and batches are taken as sequences, maps and atomic writes; their caches are not modelled.
- Bloom filters are taken as the sequence of what was added to them; false positives appear only as a free predicate.
- Waiting times of dialers, refusal of private addresses, connection attempts and handshakes. A dialer may end at any time, which allows more runs than the code.
- Signatures and certificates of addresses, uptimes, sampling of peers, throttling, and all of `message/`.
- Notifications of the router for subnets besides the primary network follow the same path and are not told apart.
- Validation of a genesis configuration, addresses and memos of the genesis, staking times, and the bytes of the genesis.
- Database errors while an indexer is created.
- Running checks in the background and their durations; the HTTP side of the router.
- Metrics other than the health gauges, and logging.
