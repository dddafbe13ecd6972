# Message registry contract, modelled in Dafny

The contract in `src/contract.rs` is an append-only message registry that runs
inside a CosmWasm host. It keeps two storage cells:

- `CURRENT_ID`, a `u128` counter holding the next id to assign;
- `MESSAGES`, a map from a `u128` id to a `Message { id, owner, topic, message }`.

`instantiate` sets the counter to 0. The one command, `AddMessage { topic, message }`,
stores a record under the current counter value and advances the counter. It
panics on `u128` overflow, and the host then rolls the transaction back. Five
read-only queries return the counter, the whole store in ascending key order,
or that listing filtered by exact equality on owner, topic or id.

The Dafny project models this as follows:

- `state.dfy` (module `State`): the `u128` range and the `Message` record.
- `storage.dfy` (module `Storage`): the ascending range scan of a map keyed by
  `u128`. `SortedKeys` lists every key once, smallest first.
- `sequences.dfy` (module `Sequences`): `Filter`, the `filter(..).collect()`
  step, and `IsSubsequence`, "order-preserving selection".
- `decimal.dfy` (module `Decimal`): the decimal rendering `Uint128` uses for the
  `message id` attribute, with its inverse.
- `queries.dfy` (module `Queries`): the five queries as pure functions over the
  store, the store invariant `Consistent`, and the lemmas relating the queries
  to each other and to an add.
- `contract.dfy` (module `Contract`): the class `Registry`. Its fields are
  `currentId` and `messages`. `Instantiate` is its constructor, and `AddMessage`
  and `Execute` are state-changing methods. `Query` is the dispatching function;
  it only reads the object, so no query can change the counter or the store.
- `scenarios.dfy` (module `Scenarios`): the scenarios of the contract's unit
  tests, each stated as the contract of a method or a lemma.

The invariant `Registry.Valid()` (that is, `Queries.Consistent`) says two
things. The store's keys are exactly `0 .. currentId-1`. Every record's `id`
equals its key. `AddMessage` preserves it. Under it, the listing is
`messages[0], ..., messages[currentId-1]`, and by-id returns at most one record.

### Order of the overflow check

The code computes `current_id.checked_add(1).unwrap()` (src/contract.rs:43)
before `MESSAGES.save` (src/contract.rs:44). The model follows it and returns
`Err(CounterOverflow)` before writing anything, so a failed call leaves the
state unchanged even without the host's rollback.

## Model

| member | source | states |
|---|---|---|
| `Contract.Registry.Instantiate` | src/contract.rs:17-25 | a new instance has counter 0 and an empty store, satisfies the invariant, and its current-id query answers 0 and its listing is empty |
| `Contract.Registry.AddMessage` | src/contract.rs:39-52 | fails exactly when the counter is the largest `u128`, with the state unchanged; otherwise it stores `Message(n, sender, topic, message)` under the old counter `n`, which was a fresh key, and leaves all other records as they were; the counter becomes `n + 1`, the invariant is kept, the listing gains exactly the new record at its end, and the response's attributes are `AddAttributes(n, topic, message)` |
| `Contract.Registry.Execute` | src/contract.rs:28-37 | dispatches `AddMessage { topic, message }` with the same outcome and new state as `AddMessage` |
| `Contract.AddAttributes` | src/contract.rs:46-51 | exactly four attributes in order: `execute`=`add message`, `message id`=`NatToString(id)`, the canonical decimal rendering of the id (digits only, no leading zero, parsing back to the id), `topic`, `message text` |
| `Contract.Registry.Query` | src/contract.rs:55-68 | current-id answers the counter, as `query_current_id` does; all-messages answers `currentId` records with record `i` being `messages[i]`, of id `i`; by-address and by-topic answer a subsequence of the listing whose every element matches and which holds every matching stored record; by-id answers `[messages[id]]` when `id` is below the counter and `[]` otherwise |
| `Storage.SortedKeys` | src/contract.rs:71 | the ascending range scan: every key of the store exactly once, strictly increasing |
| `Storage.SortedKeysOfRange` | src/contract.rs:71 | scanning the keys `lo .. hi-1` yields `lo, lo+1, ..., hi-1` |
| `Queries.AllMessages` | src/contract.rs:70-75 | the listing has one record per stored key |
| `Queries.AllMessagesSound` | src/contract.rs:70-75 | every record in the listing is a stored record |
| `Queries.AllMessagesComplete` | src/contract.rs:70-75 | every stored record is in the listing |
| `Queries.AllMessagesInOrder` | src/contract.rs:70-75 | under the invariant the listing has exactly `counter` records and position `i` holds `store[i]`, whose id is `i`; so after `k` adds from instantiation it holds `k` records in ascending id order |
| `Queries.AllMessagesIsPrefix` | src/contract.rs:70-75 | under the invariant the listing equals the records under keys `0 .. counter-1`, in key order |
| `Queries.MessagesByAddr` | src/contract.rs:77-83 | the result is a subsequence of the listing, and every element has owner `address` |
| `Queries.ByAddrMembers` | src/contract.rs:77-83 | by-address holds exactly the listed records with owner `address`, includes every stored record with that owner, and is empty exactly when no listed record has that owner |
| `Queries.MessagesByTopic` | src/contract.rs:85-91 | the result is a subsequence of the listing, and every element has topic `topic` |
| `Queries.ByTopicMembers` | src/contract.rs:85-91 | the same as `ByAddrMembers`, for the topic field |
| `Queries.MessagesById` | src/contract.rs:93-99 | the result is a subsequence of the listing, and every element has id `id` |
| `Queries.ByIdMembers` | src/contract.rs:93-99 | by-id holds exactly the listed records with that id, and is empty exactly when no listed record has it |
| `Queries.MessagesByIdExact` | src/contract.rs:93-99 | under the invariant by-id returns `[store[id]]` when `id` is below the counter and `[]` otherwise, so never more than one record |
| `Queries.AddKeepsConsistent` | src/contract.rs:41-45 | storing the record with id `n` under key `n` keeps the invariant with counter `n + 1` |
| `Queries.PrefixOfAdd` | src/contract.rs:41-45 | that store keeps the invariant and extends the key-ordered prefix by the new record |
| `Queries.AddExtendsListing` | src/contract.rs:41-45 | that store appends exactly the new record to the listing |
| `Queries.ByAddrAfterAdd` | src/contract.rs:77-83 | after an add, by-address gains the new record at its end when its owner matches, and is otherwise unchanged |
| `Queries.ByTopicAfterAdd` | src/contract.rs:85-91 | after an add, by-topic gains the new record at its end when its topic matches, and is otherwise unchanged |
| `Queries.ByIdAfterAdd` | src/contract.rs:93-99 | after an add, by-id gains the new record at its end when its id matches, and is otherwise unchanged |
| `Sequences.Filter` | src/contract.rs:80 | the kept elements all satisfy the predicate, and there are no more of them than input elements |
| `Sequences.FilterMembers` | src/contract.rs:80 | an element is kept exactly when it is in the input and satisfies the predicate |
| `Sequences.FilterIsSubsequence` | src/contract.rs:80 | filtering keeps the input's relative order |
| `Sequences.FilterKeepsCopies` | src/contract.rs:80 | filtering keeps every copy of a matching element |
| `Sequences.FilterAppend` | src/contract.rs:80 | filtering distributes over concatenation |
| `Sequences.FilterSingleton` | src/contract.rs:80 | filtering one element keeps it exactly when it matches |
| `Decimal.NatToString` | src/contract.rs:48 | the rendered id is non-empty, all digits, without a leading zero, and has one digit exactly when the id is below 10 |
| `Decimal.ParseNatToString` | src/contract.rs:48 | parsing the rendered id gives the id back |
| `Decimal.NatToStringInjective` | src/contract.rs:48 | distinct ids render as distinct strings |
| `Scenarios.AddTwoMessages` | src/contract.rs:140-201 | two adds from one sender after instantiation answer with the attributes carrying ids "0" and "1", the counter is 1 after the first, and two records are listed after the second |
| `Scenarios.TwoFromSender` | src/contract.rs:203-223 | after two adds from `sender`, by-address of another caller is empty |
| `Scenarios.ByOwnerScenario` | src/contract.rs:203-223 | after adds from `sender`, `sender` and `other`, three records are listed and by-address `other` answers only the last one |
| `Scenarios.ByIdScenario` | src/contract.rs:225-241 | after adds from `sender`, `other` and `sender`, by-id 1 answers one record, owned by `other` |
| `Scenarios.ByTopicScenario` | src/contract.rs:243-264 | after adds from `other` then `sender` with one topic, by-topic answers both in that order, and the second has an id other than 0 and 2 |

## Left out

- The host machinery is not modelled: `entry_point` exports, `Deps`/`DepsMut`/`Env`/`MessageInfo`, the byte encoding inside `Item`/`Map`, and the `to_binary` serialisation of query answers. A query returns a `QueryResponse` value instead of `Binary`. The sender is a plain `string` parameter.
- Storage read and write failures (the `?` on `load`/`save`) are not modelled. Neither is the `unwrap` on decoding a scanned entry. The store is a typed in-memory map, so neither can fail. `CURRENT_ID.load` before `instantiate` cannot happen either: a `Registry` exists only after its constructor ran.
- `Contract.Registry.Instantiate`: modelled as a constructor, so it also creates the empty `MESSAGES` store of a fresh instance, and it does not return the empty `Response::default()`.
- The `Response` datatype holds only the attributes. Messages, events and data stay empty in this contract.
- The overflow panic of `checked_add(1).unwrap()` is modelled as `Err(CounterOverflow)`. The host's transactional rollback is taken for granted; the model writes nothing before that check.
- `ContractError` and the `msg`/`state` module definitions are not part of this model. Their shapes are inferred from how `src/contract.rs` uses them. The unused `std::thread::current` import is left out.
- The unit tests' harness (`mock_dependencies`, `mock_info`, `from_binary`) is not modelled. Their scenarios appear in `Scenarios`. The method `AddTwoMessages` runs the class, and the lemmas work on the store values the adds produce. They use two placeholder callers, `sender` and `other`.
