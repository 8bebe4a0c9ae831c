# Mocrelay, verified

A Dafny model of the parts of mocrelay, a Nostr relay, whose correctness is hard to see from any one
function: the Pebble query engine and its agreement with the naive in-memory storage, the write path
with replacement and deletion requests, the session that merges the answers of several handlers, the
storage handler that feeds it, the token bucket, and the middleware pipeline. Code that works by
changing things step by step is modelled by classes, methods and loops; each is proved against a
function or relation that says what it means, and what the relay promises is proved about those.

`dafny verify dfyconfig.toml` checks everything.

## What is proved

**Queries.** Byte order of index keys is the order of answers (`Bytes`, `Events`, `Keys`). A cursor
stands for the bag of positions it has yet to yield; index scans, slices and unions over a binary heap
meet one contract for stepping and one for seeking forward, intersections the one for stepping (`Heap`,
`Cursors`, `Unions`, `Intersections`), so any mix of calls accounts for every position (`CursorRuns`).
The merge loop over all filters is right whatever values the FNV hash collides on (`Queries`,
`PebbleQuery`): `PebbleQuery.Query` answers every filter list with the one right answer over the live
events, the same that `InMemoryStorage.Query` computes by scanning. What matches and what a right
answer is, down to how many events a limit admits, `Filters.FilterReads` and `AnswerReads` write out in
full.

**Writes.** `StoreSpec` says what storing an event means. After every history there is at most one live
event per address, no live event lies under a current tombstone for its address or, deletion requests
aside, for its id, a live deletion request goes exactly by an accepted request with an empty `a` value,
and without deletion requests the final state depends only on which events came. The in-memory storage
computes exactly that (`MemoryStorage`). The Pebble storage computes its database model (`PebbleStore`,
`PebbleStorage`), and over every history of well-formed events (ids and public keys of 64 lower-case
hexadecimal digits), whatever its deletion requests ask for, that database represents a state of
Pebble's own after every commit, also the one between the deletions of a request and its own write
(`Simulation`). So after every commit index entries are exactly those of the stored events, every
stored event with an address is the one its address entry leads to, and the stored events keep clear of
the tombstones as in memory; queries answer what the stored events say they must; and while ids
identify addresses no deletion request is lost (`PebbleHistory`). `StoreLaws` and `PebbleLaws` say the
same for those who send events, in terms of kinds, authors, times and tags alone: exactly which events
are stored, replaced, deleted and refused, in either storage, with `Addresses` saying which events
share an address.

**Agreement.** `PebbleState` says what Pebble's state is when ids identify addresses, and exactly when
one call leaves it like memory's. `Agreement.Differential` is the repository's randomized differential
test for every history and every query: two storage objects, the same flags, the same events in the
same order. For well-formed events whose ids identify addresses, `Agreement.HistoryExact` says exactly
when the stores agree throughout: Pebble must read in the `e` values of each accepted deletion request
only ids that memory marks as well, everything memory removes must be named by id or live at an
address that is not empty, and no request may name itself. Lower-case `e` values, no empty `a` value
and not its own id are enough. Queries then agree exactly when every event memory finds matches a
filter with ids or with `since` above the smallest int64. `Agreement.ReusedIdDivides` shows that ids
must identify addresses.

**Merging.** Every step of a session is the step of many small machines, one per event id, subscription
and count, and leaves no choice but the order of messages (`MergeSpec`, `MergeSession`). Over every run
(`MergeRuns`): one OK and one COUNT per request, exactly when all handlers have answered or are lost,
and silence after CLOSE. For a REQ the session, which remembers only the last event sent, a set of ids
and a few counters, behaves as the whole history of that REQ alone demands (`MergeEpochs`), from which
order, uniqueness, the limit and the exact moment of the EOSE follow. `MergeLaws` states what the
client can tell: what each next answer of a handler makes the session send, in terms of what was sent
before. `EndToEnd` puts a storage behind it, of either kind: under every interleaving the client
receives every event of the answer once before the one EOSE.

**Limits and middlewares.** `TokenBucket` bounds the calls allowed over any run, counts those allowed
at any one time exactly, and says to the nanosecond when the next one is allowed. `Middleware` shows
that one pipeline over `a ++ b` is `a` wrapped around `b`, with states and failures, and that its loop
loses, invents and reorders nothing.

## Found on the way

- `since` equal to the smallest int64 wraps the upper bound of a scan to zero, so Pebble finds nothing
  where memory finds everything up to `until` (pebble_storage.go:762-768).
- `incrementBytes` of a prefix that is all 0xFF returns no upper bound for it; no index prefix is.
- A deletion request that names its own id is stored by Pebble and dropped by memory, though both
  report it as stored (storage.go:110-115).
- An empty `a` value makes memory delete all regular events of the author up to the request's time,
  deletion requests included (storage.go:188-192); Pebble deletes nothing. In memory it is the only way for
  a deletion request to be deleted, and the condition is exact: `StoreSpec.RequestGoesExactly`.
- A deletion record is that of the last accepted request naming the id or address, whoever its author:
  a later request of another author ends what an earlier one refused (storage.go:173, 187;
  `StoreLaws.LastRequestDecides`).
- Hexadecimal in other than lower case in an `e` value deletes from Pebble and not from memory.
- An address entry may outlive its event. Would an id come back at another address, Pebble would take
  that event for the holder of the address.
- `waitDuration` is documented as the time until `allow` succeeds; rounding down makes it up to one
  nanosecond short, which the loop of `readStall` survives with at most one more sleep.

## Model

| member | source | states |
|---|---|---|
| Bytes.BytesLess | pebble_storage.go:815-826 | the byte loop decides the lexicographic order, a strict prefix coming first |
| Bytes.LessTotal | pebble_storage.go:815-826 | that order is total, irreflexive and asymmetric |
| Bytes.BigEndianOrder | pebble_storage.go:1078-1121 | byte order of strings of one length is the order of the numbers they encode |
| Bytes.Uint64RoundTrip | pebble_storage.go:1078-1083 | eight big-endian bytes give the number back |
| Bytes.IncrementBytes | pebble_storage.go:830-842 | the loop increments the last byte that is not 0xFF and clears the ones after it, or appends a zero byte |
| Bytes.PrefixRangeExact | pebble_storage.go:815-842 | among keys at least as long as the prefix, [prefix, incrementBytes(prefix)) is the keys with that prefix if and only if some byte is not 0xFF |
| Bytes.PrefixRangeExactAnyLength | pebble_storage.go:815-842 | among keys of any length, that holds if and only if the last byte is not 0xFF |
| Bytes.InvertTimestampValue | pebble_storage.go:1086-1092 | with int64 wrap-around written out, the inverted timestamp of every int64 time is MaxInt64 minus the time, as an unsigned number |
| Bytes.InvertTimestampBijection | pebble_storage.go:1086-1092 | inversion is strictly decreasing and reaches every uint64 |
| Bytes.Int64RoundTrip | pebble_storage.go:851-870 | a created_at survives the cast to uint64 and back in a deletion record |
| Bytes.StringLessTotal | storage.go:266-276 | the order of ids is total |
| Bytes.IsValidLowercaseHex | filter.go:323-334 | the scan accepts exactly the lower-case hexadecimal strings of the given length |
| Bytes.HexToBytes32 | pebble_storage.go:1142-1149 | the loop decodes every pair of digits; digits it does not know decode as the source's hexByte does |
| Bytes.BytesToHex | pebble_storage.go:1164-1172 | the loop encodes every byte as two lower-case digits |
| Bytes.HexRoundTrip | pebble_storage.go:1142-1172 | decoding what was encoded gives the bytes back, and the encoding is lower-case |
| Bytes.HexOrder | pebble_storage.go:1142-1172 | on lower-case hexadecimal, decoding is injective, encoding undoes it, and string order is byte order |
| Bytes.AnyCase | pebble_storage.go:1142-1161 | hexadecimal digits of either case are read alike |
| Events.AddressEmpty | event.go:202-215 | exactly the replaceable and addressable kinds have an address |
| Addresses.AddressReads | event.go:354-376 | an address is the kind in decimal, the author and the value of the first `d` tag, with colons between; only kinds 0, 3, 10000 to 19999 and 30000 to 39999 have one |
| Addresses.SharedAddress | event.go:354-376 | two events share an address if and only if they have one author and one kind 0, 3 or 10000 to 19999, or one author, one kind 30000 to 39999 and one `d` value |
| Events.BeforeOrder | storage.go:266-276 | created_at descending then id ascending is a strict total order on positions |
| Events.RankOrder | pebble_storage.go:447-452 | comparing timestamps, then id bytes, is comparing the 40 key bytes as one number, and that number determines the position |
| Events.EventRankOrder | pebble_storage.go:1078-1121 | byte order of the index entries of two events is the order of query answers |
| Events.CompareEvents | storage.go:266-276 | the comparison is negative exactly when the first event comes first, and zero only for one position |
| Filters.Match | filter.go:249-314 | with the tag conditions visited in any order, the flag loops decide the NIP-01 meaning of a filter |
| Filters.FilterReads | filter.go:249-314 | which events match, written out condition by condition |
| Filters.AnswerUnique | storage.go:205-250 | a filter list has one right answer over a set of live events with distinct ids: sorted, without repetition, complete up to the first filter's limit |
| Filters.AnswerReads | storage.go:199-250 | a right answer is newest first, equal times by id, all of it matches, what is left out comes after it, and it has as many events as match or as the first filter's limit admits, all of them without a limit or with a negative one |
| Keys.EncodeInjective | pebble_storage.go:1071-1140 | the six key families never collide, and within a family equal bytes are the same key unless the two addresses in them have one hash |
| Keys.BoundsAt | pebble_storage.go:747-812 | the inverted bounds admit exactly the times between since and until, for since above MinInt64 |
| Keys.BoundsExact | pebble_storage.go:747-812 | they do so for every time if and only if since is not MinInt64, where the upper bound wraps to zero |
| Keys.FieldScan | pebble_storage.go:747-780 | among all keys of the database the byte bounds of a field scan select exactly the entries of that hash within the time range |
| Keys.CreatedAtScan | pebble_storage.go:783-812 | the byte bounds of a time scan select exactly the created_at entries within the time range |
| StoreSpec.DeleteKeepsInvariant | storage.go:153-195 | a deletion request keeps tombstones, one live event per address and the rest of the invariant |
| StoreSpec.StoreKeepsInvariant | storage.go:74-149 | storing any event keeps: events keyed by id, at most one live event per address, no live event covered by the current deletion record for its id (requests aside) or for its address up to the record's time, nothing ephemeral |
| StoreSpec.RunKeepsInvariant | storage.go:74-149 | so all of that holds after every history |
| StoreSpec.RequestGoesExactly | storage.go:171-195 | a deletion request against a deletion request has no effect (NIP-09) with exactly one exception: one call removes a live request if and only if it is an accepted request with an empty `a` value by its author and not older; otherwise it stays unchanged |
| StoreSpec.RequestsStay | storage.go:171-195 | so a live deletion request is live after every call of a history if and only if no call carries such an `a` value |
| StoreSpec.Newest | storage.go:117-139 | the newest event of a history at an address, ties to the smallest id, exists and survives |
| StoreSpec.Convergence | storage.go:99-149 | without deletion requests, and with ids that identify events, exactly the regular events and per address the newest one are live at the end |
| StoreSpec.SameEventsSameState | storage.go:99-149 | so histories of the same events, in any order and with any repetition, end in the same state |
| StoreLaws.StoredExactly | storage.go:74-149 | an event that is no request is stored if and only if its id is not live, its kind is not 20000 to 29999, no current record of its author hits it, and it wins against every live event of its author, kind and `d` value; it then takes the place of exactly those |
| StoreLaws.RequestDoes | storage.go:74-195 | a request is accepted unless its id is live or hit by a record of its author; then exactly the events of its author go that its `e` or `a` values ask for, it comes unless it names itself, and every value has a record with its author and time |
| StoreLaws.DeletedIsRefused | storage.go:84-97 | what a request deleted is not live and stays refused, by address up to the time of the request and by id; a newer event at the address is not refused for its sake |
| StoreLaws.LastRequestDecides | storage.go:153-195 | after every history the record of an id or address is that of the last accepted request that names it |
| StoreLaws.NeverNamed | storage.go:153-195 | and there is none if no accepted request names it |
| StoreLaws.DeletedStaysRefused | storage.go:84-97 | after every history, an event that the last accepted request naming its address or id is by the author of and not older than is refused and not live |
| StoreLaws.OneOfEachPlace | storage.go:117-139 | after every history no two live events share author and replaceable kind, or author, addressable kind and `d` value, and nothing ephemeral is live |
| StoreLaws.FlagTells | storage.go:74-149 | a call that reports nothing stored changes nothing; one that reports an event stored had a new id, and leaves it live unless it is a request that names itself |
| MemoryStorage.DeleteFunc | storage.go:173-178 | deleting from the list keeps exactly the other events and their distinctness |
| MemoryStorage.SortEvents | storage.go:257-264 | the sorted copy holds the same events, strictly in the order of answers |
| MemoryStorage.InMemoryStorage.constructor | storage.go:65-71 | a new storage is the empty state |
| MemoryStorage.InMemoryStorage.Store | storage.go:74-149 | the list and the two maps after the call, and the flag, are exactly those of the abstract store |
| MemoryStorage.InMemoryStorage.Place | storage.go:117-139 | scanning for the holder of an address and replacing it in place is the abstract replacement |
| MemoryStorage.InMemoryStorage.ProcessKind5 | storage.go:153-195 | going through the tags one by one is the abstract deletion by all of them at once |
| MemoryStorage.InMemoryStorage.ProcessTag | storage.go:164-193 | one tag removes exactly the events it names, and leaves its record |
| MemoryStorage.InMemoryStorage.Query | storage.go:198-255 | scanning, matching, sorting and cutting gives the right answer for every filter list |
| PebbleModel.RecordRoundTrip | pebble_storage.go:851-884 | a deletion record of forty bytes reads back as the public key and time it was written with |
| PebbleModel.ApplyAppend | pebble_storage.go:166-225 | operations appended to a batch take effect in order, after all that it already holds |
| PebbleModel.DeleteOpsEffect | pebble_storage.go:1019-1067 | the batch for deleting a stored event removes exactly the event's own key and index entries, whatever else the batch holds |
| PebbleModel.WriteOpsEffect | pebble_storage.go:177-220 | the batch for writing an event sets exactly its own key, index entries and address entry |
| PebbleModel.RequestOpsEffect | pebble_storage.go:886-952 | the batch of a deletion request, though it reads the database and not itself, removes the keys of the events its tags reach and sets one record per target, in whatever order the tags come |
| PebbleStorage.PebbleStorage.Commit | pebble_storage.go:222-225 | committing applies the operations of the batch in order, atomically |
| PebbleStorage.PebbleStorage.GetEventByID | pebble_storage.go:961-978 | reads the event stored under an id |
| PebbleStorage.PebbleStorage.GetDeletionRecord | pebble_storage.go:851-870 | reads the record under a key; values that are not forty bytes long are no record |
| PebbleStorage.PebbleStorage.DeleteEventFromBatch | pebble_storage.go:1019-1067 | appends the deletion batch of the stored event, or nothing for a dangling id |
| PebbleStorage.PebbleStorage.DeleteTags | pebble_storage.go:1054-1062 | appends one deletion per indexed tag |
| PebbleStorage.PebbleStorage.ProcessKind5 | pebble_storage.go:873-958 | commits the batch of all tags of the request |
| PebbleStorage.PebbleStorage.RequestE | pebble_storage.go:892-916 | the operations of one `e` tag |
| PebbleStorage.PebbleStorage.RequestA | pebble_storage.go:918-950 | the operations of one `a` tag |
| PebbleStorage.PebbleStorage.Store | pebble_storage.go:75-228 | the database after the call and the flag are those of the database model, over both commits |
| PebbleStorage.PebbleStorage.Refuses | pebble_storage.go:83-119 | the checks in the source's order refuse exactly duplicates, tombstoned and ephemeral events |
| PebbleStorage.PebbleStorage.Existing | pebble_storage.go:128-158 | finds the event an address entry leads to, if it does not dangle, and decides whether the new event wins |
| PebbleStorage.PebbleStorage.WriteEvent | pebble_storage.go:177-220 | appends the writing batch of the event |
| PebbleStorage.PebbleStorage.WriteTags | pebble_storage.go:202-210 | appends one entry per indexed tag |
| Simulation.RefuseTheSame | pebble_storage.go:83-119 | a database that represents a state refuses exactly what the in-memory checks reject, and ephemeral events |
| Simulation.EntryLeadsHome | pebble_storage.go:128-158 | an address entry leads to a live event or dangles; no other event is live at the address, and if ids identify addresses the one it leads to is |
| Simulation.VictimIsRemoved | pebble_storage.go:906-947 | what a tag reaches through the database is live, by the author of the request, and named: by the id read in an `e` value, unless it is a request, or by an `a` value that is not empty and whose entry leads to it, unless it is newer |
| Simulation.DelsAreRemovals | pebble_storage.go:886-952 | the batch of a request deletes the event and index keys of exactly the live events that its tags reach |
| Simulation.RequestStep | pebble_storage.go:952-957 | at the commit between the deletions of any well-formed request and its own write, the database represents the state without the events reached and with the records left |
| Simulation.DropStep | pebble_storage.go:1019-1067 | deleting one live event's keys removes all its index entries and none of another's |
| Simulation.AddStep | pebble_storage.go:177-220 | writing an accepted event adds exactly it |
| Simulation.PlaceStep | pebble_storage.go:128-225 | after an accepted event that is no request the database represents the state with it in place of the one at its address |
| Simulation.ReplaceStep | pebble_storage.go:128-175 | replacement deletes the holder of the address and writes the winner in one batch |
| Simulation.StoreRequestStep | pebble_storage.go:121-126 | after any accepted request, also one that names itself, the database represents the state without the events reached and with the request |
| Simulation.StoreStep | pebble_storage.go:75-228 | one call with any well-formed event: the database goes on representing a state, the next one of Pebble |
| Simulation.IndexesAreExact | pebble_storage.go:182-210 | whenever a database represents a state, an index key is present exactly when it is one of some live event |
| Simulation.AddressesAreCoherent | pebble_storage.go:212-220 | every live event with an address is the one its address entry points at, and the only live one there |
| Simulation.HistoryStep | pebble_storage.go:75-228 | over every history of well-formed events, whatever its requests ask for and whatever the hash function, the database represents a state |
| PebbleState.NextIsStep | pebble_storage.go:75-228 | if ids identify addresses, the next state and the flag can be told from the state alone: a request reaches the events of its author by an id read in an `e` value, requests excepted, or by a non-empty address, newer ones excepted |
| PebbleState.RequestIsKept | pebble_storage.go:906-916 | no call removes a stored deletion request whose id can only be that of an event without address |
| PebbleState.RepresentedAreAlike | pebble_storage.go:961-978 | one database represents one state, up to deletion records for values that are no ids |
| PebbleState.DeleteExact | pebble_storage.go:886-952 | memory and Pebble remove the same events and leave the same records if and only if Pebble can follow the request |
| PebbleState.StepExact | storage.go:74-149 | on one state both give the same flag for any well-formed event, and end in states alike if and only if it is no accepted request, or one that Pebble can follow and that spares itself |
| PebbleState.DecentIsInStep | pebble_storage.go:886-952 | a request with lower-case `e` values, no empty `a` value and not its own id keeps the stores in step in every state |
| PebbleHistory.RepresentedIsConsistent | pebble_storage.go:182-220 | a database that represents any state is consistent: index entries exactly those of the stored events, each event with an address the one its address entry leads to, and no stored event under a current deletion record for its id, requests excepted, or for its address up to the record's time |
| PebbleHistory.AlwaysConsistent | pebble_storage.go:75-228 | over every history of well-formed events the database is consistent after every call |
| PebbleHistory.ConsistentBetweenCommits | pebble_storage.go:952-957 | and so it is after the deletions of a request, before the request itself is written |
| PebbleHistory.HistoryIsSteps | pebble_storage.go:75-228 | if ids identify addresses, a function of the history alone says what the database represents after it |
| PebbleHistory.RequestsLast | pebble_storage.go:906-916 | a stored deletion request stays stored through every later history in which no event with an address has its id (NIP-09: deleting a deletion request has no effect) |
| PebbleHistory.QueryAfter | pebble_storage.go:231-317 | the storage object driven through any history of well-formed events answers every filter list with the one right answer over the events it then stores |
| PebbleLaws.OneStoredOfEachPlace | pebble_storage.go:128-220 | after every history no two stored events share author and replaceable kind, or author, addressable kind and `d` value, and nothing ephemeral is stored |
| PebbleLaws.StoresExactly | pebble_storage.go:75-228 | an event that is no request is stored under exactly the same condition as in memory, said of the events and records stored, and takes the place of exactly the stored events of its place |
| PebbleLaws.RequestStores | pebble_storage.go:873-958 | a request is accepted unless its id is stored or hit by a record of its author; then exactly the events of its author go that an `e` value of 64 digits spells or a non-empty `a` value names, and it comes, even if it names itself |
| PebbleLaws.RefusesDeleted | pebble_storage.go:873-958 | after a request every address named and every id spelled has a record with its author and time; what such a record is for is refused by the next call and not stored, up to the time of the request for addresses; a newer event is not refused for its sake |
| PebbleLaws.StaysRefused | pebble_storage.go:105-119 | and stays refused, by address, after any later history in which no request names the address |
| Agreement.SlotOfHistory | event.go:354-376 | a history in which ids identify addresses assigns each id its address |
| Agreement.CleanHistories | pebble_storage.go:886-952 | histories of well-formed events whose requests have lower-case `e` values, no empty `a` value and not their own id meet that condition |
| Agreement.PebbleConverges | pebble_storage.go:128-225 | without deletion requests, and with ids that identify events, Pebble stores at the end exactly the regular events and per address the newest one |
| Agreement.SameEventsSameStored | pebble_storage.go:128-225 | so histories of the same events, in any order and with any repetition, leave the same events stored |
| Agreement.Replay | storage_differential_test.go:27-54 | both storage objects driven through any agreeable history answer every call alike and end in the same abstract state |
| Agreement.Differential | storage_differential_test.go:27-66 | and then give the same events in the same order for every filter list, except exactly when memory finds an event that no bounded filter matches |
| Agreement.SelfDeletionDivides | storage.go:110-115 | a request that names itself ends up in Pebble and not in memory |
| Agreement.RequestExact | pebble_storage.go:873-958 | at the commit of a request's deletions the stores agree if and only if Pebble reads in the `e` values only ids that memory marks as well, and everything memory removes is named by id or lives at an address that is not empty |
| Agreement.StoreExact | pebble_storage.go:75-228 | one call on both storages from agreeing states: the flags are always the same, and the stores agree afterwards if and only if the event is no accepted request or a followable one that spares itself |
| Agreement.HistoryExact | storage_differential_test.go:27-54 | over every history of well-formed events whose ids identify addresses, whatever the hash function: the stores agree after every call if and only if every accepted request is followable and spares itself, and then all flags are the same |
| Agreement.SpellingDivides | pebble_storage.go:894-904 | an id that Pebble reads in an `e` value and memory does not mark leaves a record in Pebble only |
| Agreement.EmptyATagDivides | storage.go:188-192 | a regular event reached by an empty `a` value is removed from memory, and stays in Pebble unless it goes by an id read in an `e` value |
| Agreement.UpperCaseDivides | pebble_storage.go:1142-1161 | an event whose id an `e` value spells, but in other than lower-case digits, and that no address reaches, goes from Pebble and stays in memory, whatever else the request carries |
| Agreement.MinSinceExact | pebble_storage.go:747-812 | two right answers are the same if and only if every event memory finds matches a filter with ids or with since above MinInt64 |
| Agreement.DanglingEntry | pebble_storage.go:906-916 | any accepted request that deletes by id the event at an address it does not name leaves the address entry pointing at the id of the deleted event |
| Agreement.ReusedIdDivides | pebble_storage.go:136-158 | if an event without address came with the id of a dangling entry, Pebble would refuse a later event that memory stores |
| Heap.Down | pebble_storage.go:444-462 | sifting down restores the heap order below a place and keeps the entries |
| Heap.Init | pebble_storage.go:401-410 | any list becomes a heap of the same entries |
| Heap.Up | pebble_storage.go:610-610 | sifting up restores the heap order and keeps the entries |
| Heap.Push | pebble_storage.go:454-454 | the heap gains exactly the new entry |
| Heap.Pop | pebble_storage.go:611-619 | the heap gives up its root, a least entry, and exactly it |
| LeafCursors.IndexCursor.constructor | pebble_storage.go:349-360 | a new scan stands for all its keys |
| LeafCursors.IndexCursor.ReadCurrent | pebble_storage.go:362-368 | timestamp and id read off the key are its position |
| LeafCursors.IndexCursor.Next | pebble_storage.go:374-381 | the head is consumed and the next key is the head |
| LeafCursors.IndexCursor.SeekGE | pebble_storage.go:383-395 | an absolute seek to a target above everything consumed drops exactly what lies below it |
| LeafCursors.SliceCursor.constructor | pebble_storage.go:567-569 | a new slice cursor stands for all its entries |
| LeafCursors.SliceCursor.Next | pebble_storage.go:575-578 | the head is consumed |
| LeafCursors.SliceCursor.SeekGE | pebble_storage.go:580-591 | binary search drops exactly what lies below the target |
| LeafCursors.Search | pebble_storage.go:582-588 | the binary search of the standard library finds the first place where a monotone condition holds |
| Merging.MergedHead | pebble_storage.go:412-414 | the root of a heap over cursors is the least position left in any of them, and the heap is empty exactly when nothing is left |
| Merging.Restore | pebble_storage.go:416-426 | fixing or popping the root after its child moved keeps the heap faithful to the children |
| UnionCursors.UnionCursor.constructor | pebble_storage.go:401-410 | a union stands for the sum, with multiplicity, of what its children stand for |
| UnionCursors.UnionCursor.Next | pebble_storage.go:416-426 | a step consumes the least position of all children, once |
| UnionCursors.UnionCursor.SeekGE | pebble_storage.go:428-440 | re-seeking every child, also those already beyond the target, drops exactly what lies below it and revives nothing |
| UnionCursors.SeekChildren | pebble_storage.go:429-435 | each child is sought once, and exactly those with something left form the new heap |
| UnionCursors.LiveEntries | pebble_storage.go:402-407 | only children with something left enter the heap, each once |
| CursorRuns.TraversalAccounts | pebble_storage.go:329-337 | over any mix of steps and forward seeks positions come in order, nothing consumed or passed over comes back, and nothing at or above every target is lost |
| CursorRuns.SteppingYieldsAll | pebble_storage.go:329-337 | stepping to the end yields the whole bag in order |
| CursorRuns.Drive | pebble_storage.go:329-337 | the calls made on a scan or a union cursor, as far as they are allowed, are such a traversal of its views, and what it yielded and what is left are accounted for |
| CursorRuns.Drain | pebble_storage.go:464-560 | stepping the cursor of a filter, of whatever shape, until it is exhausted yields its whole bag in order, and one over several conditions exactly the positions that all of them have |
| IntersectCursors.NextGroup | pebble_storage.go:531-542 | stepping one child leaves the others as they are |
| IntersectCursors.MaxHead | pebble_storage.go:480-499 | finds whether every child is alive and which head is greatest |
| IntersectCursors.SeekOthers | pebble_storage.go:501-516 | seeking all others to the greatest head keeps every common position; either all now stand there, or some child has strictly less left |
| IntersectCursors.IntersectCursor.constructor | pebble_storage.go:471-476 | a new intersection stands for the positions common to all children |
| IntersectCursors.IntersectCursor.FindMatch | pebble_storage.go:478-525 | terminates, keeps the common positions, and stops at the least of them or invalid when there is none |
| IntersectCursors.IntersectCursor.Next | pebble_storage.go:531-542 | a step consumes the least common position and no other |
| FilterCursors.Cursor.Next | pebble_storage.go:329-337 | whichever kind of cursor a filter has, a step consumes its head |
| PebbleSearch.EventAt | pebble_storage.go:275-286 | the event fetched for the root of the cross-filter heap is the live event at that position |
| PebbleSearch.Round | pebble_storage.go:268-298 | one round of the merge loop keeps the answer so far right, adds at most one event and consumes a position |
| PebbleSearch.SearchEnds | pebble_storage.go:268-298 | when the limit is used up or the heap is empty, what was yielded is the right answer |
| PebbleSearch.Search | pebble_storage.go:265-299 | the merge loop terminates with the right answer: sorted, no id twice, cut at the limit |
| Scans.KeysInRange | pebble_storage.go:747-812 | an iterator between two bounds yields the encoded keys between them, in byte order |
| Scans.NewFieldIndexCursor | pebble_storage.go:747-780 | the cursor of one hash stands for exactly the entries under it within the filter's time range |
| Scans.NewCreatedAtCursor | pebble_storage.go:783-812 | the cursor without conditions stands for exactly the created_at entries within the time range |
| PebbleQuery.UnboundableMatchesNothing | pebble_storage.go:747-812 | a filter with since = MinInt64 and no ids is answered as one that matches nothing |
| PebbleQuery.HashesFind | pebble_storage.go:676-721 | the union of scans under the hashes of a condition reaches every live match, whatever hashes collide |
| PebbleQuery.TimesFind | pebble_storage.go:724-727 | the time scan reaches every live match |
| PebbleQuery.CommonFinds | pebble_storage.go:734-735 | intersecting cursors that each reach every match still reaches every match |
| PebbleQuery.BuildGroup | pebble_storage.go:739-744 | one scan or a union of several stands for all entries under the hashes |
| PebbleQuery.AuthorHashes | pebble_storage.go:674-684 | author values of another length are skipped; what remains reaches every match |
| PebbleQuery.KindHashes | pebble_storage.go:692-700 | the kind hashes reach every match |
| PebbleQuery.TagHashes | pebble_storage.go:707-718 | the tag hashes reach every match |
| PebbleQuery.GatherConditions | pebble_storage.go:671-722 | every condition cursor reaches every match, with the tag names visited in any order |
| PebbleQuery.BuildConditions | pebble_storage.go:671-735 | whichever shape the cursor tree takes, it reaches every live match of the filter and only live events |
| PebbleQuery.Assemble | pebble_storage.go:724-735 | no condition, one condition and several conditions become a time scan, the cursor itself and an intersection |
| PebbleQuery.SortEntries | pebble_storage.go:650-656 | the fetched entries are sorted by position |
| PebbleQuery.BuildIDsCursor | pebble_storage.go:624-659 | ids that are too short or unknown are skipped; the cursor reaches every live match, and no cursor means no match |
| PebbleQuery.BuildFilterCursor | pebble_storage.go:663-736 | the cursor of a filter reaches every live match and only live events; no cursor means no match |
| PebbleQuery.AddFilter | pebble_storage.go:254-263 | one more filter enters the cross-filter heap exactly when it has something to yield |
| PebbleQuery.Query | pebble_storage.go:231-299 | over every database that represents a state and every filter list, whatever hashes collide: terminates with the right answer |
| MergeSpec.OKStepKeeps | merge_handler.go:590-613 | a pending OK counts its set flags and waits for some handler |
| MergeSpec.CountStepKeeps | merge_handler.go:731-756 | a pending COUNT counts its set flags and waits for some handler |
| MergeSpec.ReqStepKeeps | merge_handler.go:615-729 | a pending EOSE counts its set flags, waits for some handler, is not also completed and has not sent its EOSE |
| MergeSpec.FollowsKeepsInv | merge_handler.go:393-401 | the session invariant holds after every step of every trace |
| MergeSpec.StepIsDetermined | merge_handler.go:533-583 | whatever order the maps are visited in, a step ends in the same state and sends the same multiset of messages |
| MergeSession.MergeSession.constructor | merge_handler.go:456-465 | a new session has nothing pending |
| MergeSession.MergeSession.StartEventResponse | merge_handler.go:467-476 | registers the event afresh, also when it is pending, and touches nothing else |
| MergeSession.MergeSession.StartCountResponse | merge_handler.go:478-486 | registers the count afresh and touches nothing else |
| MergeSession.MergeSession.StartReqResponse | merge_handler.go:488-513 | registers the subscription afresh with the first filter's limit, and forgets that it was completed |
| MergeSession.MergeSession.CloseSubscription | merge_handler.go:517-524 | forgets everything about the subscription |
| MergeSession.MergeSession.HandlerClosed | merge_handler.go:533-583 | with the three maps visited in any order, every pending entry takes exactly the step for a lost handler |
| MergeSession.MergeSession.CloseOKs | merge_handler.go:539-554 | the loop over the pending OKs |
| MergeSession.MergeSession.CloseEOSEs | merge_handler.go:556-567 | the loop over the pending EOSEs |
| MergeSession.MergeSession.CloseCounts | merge_handler.go:569-580 | the loop over the pending COUNTs |
| MergeSession.MergeSession.ProcessResponse | merge_handler.go:585-762 | an answer changes only the entry it is about; messages of other types pass through |
| MergeSession.MergeSession.ReceiveOK | merge_handler.go:590-613 | the OK branch |
| MergeSession.MergeSession.ReceiveEvent | merge_handler.go:615-696 | the EVENT branch |
| MergeSession.MergeSession.ReceiveEOSE | merge_handler.go:698-729 | the EOSE branch |
| MergeSession.MergeSession.ReceiveCount | merge_handler.go:731-756 | the COUNT branch |
| MergeRuns.Serve | merge_handler.go:280-376 | over every sequence of choices of the main loop, the messages sent on each subscription, event id and count are those of its own small machine, and the session invariant holds |
| MergeRuns.OneMergedOK | merge_handler.go:428-433 | from registering an event until it is registered again: one OK if every handler answers or is lost, none before and never a second; a lost handler forces the fixed refusal, otherwise accepted exactly when nobody rejects |
| MergeRuns.ComplaintIsARefusal | merge_handler.go:604-607 | the message of a refusal is that of a handler that refused, and empty when none did |
| MergeRuns.OneMergedCount | merge_handler.go:731-756 | from a COUNT until the next or a CLOSE: one COUNT once every handler has answered or is lost, and no other |
| MergeRuns.MaxCountIsMax | merge_handler.go:746-748 | the merged count is the largest answer, zero if there is none |
| MergeRuns.SilentAfterClose | merge_handler.go:517-524 | after a CLOSE nothing is sent for the subscription until it is requested again, whatever the handlers send |
| MergeEpochs.SessionFollowsEpoch | merge_handler.go:488-729 | from a REQ until the next or a CLOSE the client receives exactly what the history of that REQ alone says, whatever happened before |
| MergeEpochs.LastDecides | merge_handler.go:661-678 | comparing with the last event sent in order is comparing with all of them |
| MergeEpochs.EpochKeeps | merge_handler.go:615-696 | before the EOSE no id is sent twice on either path, events of handlers still answering are strictly in order and at most as many as the limit, and the event that reaches the limit is the last before the EOSE |
| MergeEpochs.EOSEExactly | merge_handler.go:680-725 | the one EOSE has been sent if and only if the limit has been reached or every handler has sent its EOSE or been lost since the REQ |
| MergeEpochs.NothingInvented | merge_handler.go:615-696 | what the client gets is a subsequence of what the handlers sent |
| MergeEpochs.EarlyInOrder | merge_handler.go:661-678 | of two forwarded events, each from a handler still answering at its time, the first comes first in the order of answers |
| MergeLaws.FreshStart | merge_handler.go:488-515 | what is sent after a REQ depends on what comes after it alone |
| MergeLaws.LiveEventLaw | merge_handler.go:615-624 | once the EOSE has gone out, or every handler has finished, every event a handler sends for the subscription is passed on |
| MergeLaws.EarlyEventLaw | merge_handler.go:626-696 | before the EOSE an event is passed on if and only if its id is new and either its handler has finished or it comes after every event passed on for handlers still answering; the one that makes these as many as the first filter's limit is followed by the EOSE at once |
| MergeLaws.QuietLaw | merge_handler.go:698-729 | no other step sends anything for the subscription, but for the EOSE when the last handler finishes |
| MergeLaws.EOSELaw | merge_handler.go:680-725 | the EOSE goes out at most once, and has gone out if and only if the limit has been reached or every handler has sent its own or been lost |
| MergeLaws.OKLaw | merge_handler.go:585-613 | once every handler has spoken or been lost the client gets one OK: refused with the fixed message if one is lost, else with the message of the last to refuse, else accepted without message; before that none |
| MergeLaws.CountLaw | merge_handler.go:728-757 | once every handler has spoken or been lost the client gets one COUNT, the largest number any of them gave first, or zero |
| MergeLaws.OthersLaw | merge_handler.go:756-761 | CLOSED messages and those of other types are passed on one by one |
| StorageHandler.StorageHandler.HandleEvent | storage_handler.go:210-228 | stores the event and answers one OK, accepted also for duplicates |
| StorageHandler.StorageHandler.HandleReq | storage_handler.go:230-340 | sends the right answer in order and then the EOSE; when the query runs out of time, the events sent so far and a CLOSED; nothing for an empty subscription id |
| StorageHandler.StorageHandler.HandleCount | storage_handler.go:343-398 | sends the number of events of the right answer, or a CLOSED when the query runs out of time |
| StorageHandler.StorageHandler.Serve | storage_handler.go:166-198 | messages are handled one after the other, each on the state its predecessors left |
| StorageHandler.EventLaw | storage_handler.go:210-228 | an event gets exactly one OK with its id, always accepted, without message if and only if it was stored; no event gets a refusal |
| StorageHandler.ReqLaw | storage_handler.go:285-340 | a REQ gets event by event the right answer and the EOSE last, or as many events as there was time for and a CLOSED |
| StorageHandler.CountLaw | storage_handler.go:343-398 | a COUNT gets the length of the right answer, or a CLOSED |
| EndToEnd.AnswersOnTheWay | merge_handler.go:615-729 | under every interleaving, every answer event that has arrived from the storage has been sent, and the EOSE never overtakes one, also when the limit triggers it |
| EndToEnd.EveryAnswerOnce | merge_handler.go:615-729 | for any answer in order, without repeated ids and within the limit: once its handler and the others have sent their EOSE, the client has received every event of it exactly once before exactly one EOSE, and just the answer in its order when the others are silent |
| EndToEnd.MemoryAnswerOnce | storage_handler.go:285-340 | so it is for the right answer over live events |
| EndToEnd.PebbleAnswerOnce | storage_handler.go:285-340 | and for what Pebble answers after any history of well-formed events, filters it cannot bound included |
| TokenBucket.RateBound | rate_limit.go:48-60 | over any run, with clocks that may step back: tokens stay between nothing and the burst, and the calls allowed are at most what was there plus rate times the growth of lastUpdate |
| TokenBucket.BurstLaw | rate_limit.go:48-60 | of calls at one time exactly as many are allowed as there are whole tokens: what was there plus rate times the time since the last update, at most the burst; each takes one |
| TokenBucket.RefusalLeavesNoTrace | rate_limit.go:48-60 | a later call finds the bucket as it would without the refused call |
| TokenBucket.RefusalsDoNotMatter | rate_limit.go:48-60 | leaving out a refused call changes no later answer |
| TokenBucket.WaitIsExact | rate_limit.go:83-94 | the next token is there exactly from the end of the wait on, counted from now or from lastUpdate if the clock is behind it; rounding down makes the announced wait less than a nanosecond short |
| TokenBucket.WaitTells | rate_limit.go:83-94 | for now at or after lastUpdate: refused at every whole nanosecond before now plus the announced wait, allowed from one nanosecond later on |
| TokenBucket.SleepHelps | rate_limit.go:143-150 | sleeping as announced, but at least a millisecond, leaves less than a nanosecond to wait |
| TokenBucket.TokenBucket.constructor | rate_limit.go:32-39 | a new bucket is full, whatever rate and burst, and in bounds if the rate is above zero and the burst at least one |
| TokenBucket.TokenBucket.Allow | rate_limit.go:48-60 | refills for the elapsed time, takes a token if there is one, and keeps the level within bounds |
| TokenBucket.TokenBucket.WaitDuration | rate_limit.go:83-94 | computes the announced wait without changing the bucket |
| TokenBucket.ReadStall | rate_limit.go:121-155 | without a bucket nothing waits; a context done on entry costs no token; a stall that ends with a token amounts to one allowed call at its end, one that is cancelled takes nothing and no later call can tell; either way at most one stall is signalled, at most two sleeps are made, and each asks for at most a millisecond more than the wait announced at the start, however late the clock readings come |
| Middleware.ServerComposition | middleware.go:248-262 | a server message through `a ++ b` is one through `b` and then `a` |
| Middleware.UpComposition | middleware.go:218-229 | sending replies out one by one is sending all of them through the inner bases first |
| Middleware.ClientComposition | middleware.go:208-241 | one pass through `a ++ b` gives the same downstream message, replies in order and states as `a` wrapped around `b`, and fails exactly when that fails |
| Middleware.ClientPassDropped | middleware.go:235-238 | a message that an outer base drops does not reach the inner ones |
| Middleware.Pipeline.HandleServerMsg | middleware.go:248-262 | the loop from the innermost base outwards computes the nested pass, states included |
| Middleware.Pipeline.HandleClientMsg | middleware.go:208-241 | the loop from the outermost base inwards, replies going out at once, computes the nested pass, states included |
| Middleware.Pipeline.Run | middleware.go:161-271 | in every run, in both directions, sent and queued together are what the pipeline made of the messages taken in, in order, and each choice to send sends the next one queued; it stops exactly for a failure, a finished handler, a cancellation, or a closed client when both queues are empty |
| Middleware.ClientMessageLaw | middleware.go:208-241 | one more client message adds downstream exactly what the pipeline passes on of it, and to the client exactly its replies |
| Middleware.HandlerMessageLaw | middleware.go:248-262 | one more handler message adds for the client exactly what comes out of the pipeline |
| Middleware.OtherChoiceLaw | middleware.go:161-206 | nothing else adds anything, nor does a client message once the channel is closed |
| Middleware.DrainLaw | middleware.go:161-206 | choosing to send as often as something is queued sends all of it |
| Middleware.TransparentLaw | middleware.go:161-262 | through bases that let everything pass, all the client sent before its channel closed is for downstream and all the handler sent is for the client, in order |
| Middleware.RunTransparent | middleware.go:161-271 | so a run of such a pipeline sends or still holds exactly those messages, in order |

## Left out

- PebbleQuery.Query: a consumer that stops iterating early sees a prefix; the model yields the whole answer.
- Merging, UnionCursors and PebbleSearch: a heap entry holds the position of its cursor instead of asking for it, and heaps are values, so that `heap.Fix` replaces the root entry; cursors themselves are updated in place.
- LeafCursors.IndexCursor: a Pebble iterator is the sorted list of keys between its bounds, taken when the snapshot is, and a place in it.
- UnionCursors.UnionCursor.constructor: the children are fresh index scans, the only ones the query builder gives a union; the source's type would take any cursor.
- Intersections: `intersectCursor.SeekGE` is not modelled; nothing in the program calls it, as no cursor is built over an intersection.
- PebbleModel: an address key holds the address itself, so no two addresses in use are taken to have one SHA-256; the byte encoding of keys takes the hash as a parameter. FNV-1a is an arbitrary function.
- PebbleModel: an event stored as JSON reads back unchanged; batches commit as a whole and reads do not fail.
- MergeSession.MergeSession: entries of the session's maps are values that the methods put back, not objects shared by reference, and the map of completed subscriptions is the set of its true keys.
- MergeRuns.Serve: channels, select, contexts, timeouts and broadcasting are the choice of the next step; a lost handler that answers again, or an answer to a request the handler never got, is among the choices. An EVENT dropped on a full buffer is a handler that has not answered.
- EndToEnd.EveryAnswerOnce: the answering handler sends its whole answer, so no query timeout; the other handlers stand for the router and are only required to send their EOSE first.
- StorageHandler.StorageHandler.Serve: the queue between receiving and handling and cancelled connections are left out, as are storage errors, which the in-memory storage does not give.
- Middleware.Pipeline.Run: a base is a pair of functions over a state of its own; starting and ending a connection, where bases may send messages of their own, is left out.
- TokenBucket: tokens are real numbers and times unbounded whole nanoseconds, so floating-point rounding and the saturation of durations are not modelled.
- TokenBucket.ReadStall: clock readings do not step back, as those of Go's monotonic clock do not.
- TokenBucket.TokenBucket.WaitDuration: for a rate above zero; the source divides by the rate, and what the conversion of an infinite quotient to a duration gives is not defined.
- Strings: a character stands for one byte of a Go string, so lengths count bytes.
- Times: `created_at` is compared as the number it is. Above 9223371974719179007 the source's comparisons of `time.Time` wrap (storage.go:89, 122, 259-263; pebble_storage.go:147-150), while Pebble's index keys and deletion records keep the number; no theorem here speaks of the source beyond that time.
- Events are parsed already, `created_at` is in whole seconds; a nil event, which both storages refuse, and nil filters are left out.
- Locks, metrics, logging, closing of iterators and I/O errors.
- Relay, WebSocket and HTTP serving, NIP-11 documents, JSON, signatures and event validation.
- Router, the full-text index and the composite storage.
- The single-check middlewares (kinds, sizes, auth, expiration, proof of work and the rate-limit wrappers).
