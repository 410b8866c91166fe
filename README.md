# sunspot_redis_index_queue: a Dafny model of the queue core

The library keeps a delayed, retrying work queue for a Sunspot search
session. It has two parts.

- **OrderedHeap** is a named Redis sorted set of serialized (Marshal)
  values, scored by whole seconds. It offers:
  - `add`;
  - a read-only range read `range`;
  - a destructive range read `range!`, which reads and then removes
    exactly what it read;
  - `remove(score)`;
  - `purge`;
  - `count`.
- **Client** turns records into queue **entries** and stores them in the
  heap at their due time. An entry holds five attributes: object id, class
  name, removal flag, attempts count and `run_at`. `process` takes out the
  entries that are due and hands each one to the session, as `index` or as
  `remove_by_id`. When that raises, the entry goes back in the queue
  `retry_interval` seconds later with one more attempt counted. An entry
  whose attempts are used up is dropped without a call.

The model is laid out as follows:

- `sorted_set.dfy` (module `SortedSet`) is the Redis sorted set.
  - It is a sequence of `Member(score, data)` in Redis order: ascending
    score, with equal scores compared as memcmp of the bytes. Each member
    occurs once (`Valid`).
  - It defines the commands the heap sends: ZADD, ZRANGEBYSCORE … LIMIT 0 n,
    ZREM, ZREMRANGEBYRANK and ZCARD.
  - It proves their properties, including how repeated limited extractions
    drain a range chunk by chunk.
- `ordered_heap.dfy` (module `OrderedHeaps`) holds the `OrderedHeap` class.
  - Its field `zset` is the sorted set; the methods reassign it.
  - `dump`/`load` are the serializer, an abstract codec that round-trips.
- `clock.dfy` models Ruby `Time` as whole seconds plus a sub-second part.
  `to_i` keeps the seconds.
- `entry.dfy` (module `Entries`) models the entry.
  - The attribute hash and the `key => value` pairs it is built from.
  - `Entry.new`: the defaults, slicing to the five keys, merging.
  - The `Entry` class, with its generated readers and writers and its
    marshal round trip.
- `processing.dfy` (module `Processing`) states what handling one entry
  does, as functions of the entry and of the outside world:
  - the outcome (skipped, done, or failed);
  - the calls sent to the session;
  - the retried attributes;
  - folds of these over a sequence of entries, for `process`.
- `client.dfy` (module `Clients`) covers the client:
  - its options and their defaults;
  - `new_entry_for_object`;
  - a `Session` class that records the calls it receives;
  - the `Client` class, whose methods are proved against the `Processing`
    definitions.

Everything from outside the program is a parameter:

- the current time (`now`, and `World.clock(i)` for the i-th entry `process` handles);
- whether the session call raises (`ok`, `World.succeeds(i)`);
- the `constantize.find` lookup (`Resolver`, which may fail);
- the serializer (`dump`/`load`).

## Model

| member | source | states |
|---|---|---|
| SortedSet.CardIsDistinctMembers | lib/sunspot/redis_index_queue/ordered_heap.rb:38-40 | ZCARD of a well-formed set is the number of distinct members it holds. |
| SortedSet.Without | lib/sunspot/redis_index_queue/ordered_heap.rb:24 | ZREM of a set of payloads keeps exactly the members whose payload is not among them, never more members. |
| SortedSet.ZAddSpec | lib/sunspot/redis_index_queue/ordered_heap.rb:12-14 | After ZADD the set is well formed; it holds the value at the new score and every other member as before. Its size grows by one exactly when the value was not there yet, and its payloads are the old ones plus the value. This row stands for `SortedSet.ZAdd`, the ZADD of ordered_heap.rb:13, which has no contract of its own. |
| SortedSet.Matching | lib/sunspot/redis_index_queue/ordered_heap.rb:22 | The score filter of ZRANGEBYSCORE keeps exactly the members scored within [lo, hi]. |
| SortedSet.RangeByScoreSpec | lib/sunspot/redis_index_queue/ordered_heap.rb:16-18 | A range read returns members of the set scored within [lo, hi], in ascending order, at most `limit` of them (any number when the limit is negative). Every matching member it leaves out sorts after all it returns, and it leaves one out only when the limit was reached. This row stands for `SortedSet.RangeByScore`, the ZRANGEBYSCORE … LIMIT of ordered_heap.rb:17 and 22, which has no contract of its own. |
| SortedSet.ExtractSpec | lib/sunspot/redis_index_queue/ordered_heap.rb:20-28 | Removing what a range read returned leaves a well-formed set holding exactly the old members minus those returned. Its size falls by the number returned, and the members still matching are the matching sequence without the returned prefix. |
| SortedSet.ExtractNothing | lib/sunspot/redis_index_queue/ordered_heap.rb:23-25 | With limit 0 the read returns nothing, and a read that returns nothing leaves the set unchanged. |
| SortedSet.DrainChunks | spec/sunspot/redis_index_queue/ordered_heap_spec.rb:54-57 | After k destructive reads with limit L > 0, the next read returns positions k*L to (k+1)*L of what matched at the start, cut at its end. |
| SortedSet.DrainEmpties | spec/sunspot/redis_index_queue/client_spec.rb:74-81 | When n members match, ceil(n/L) destructive reads with limit L leave nothing in the range. |
| SortedSet.DrainedValid | lib/sunspot/redis_index_queue/ordered_heap.rb:20-28 | Any number of destructive reads leaves the set well formed. |
| OrderedHeaps.OrderedHeap.constructor | lib/sunspot/redis_index_queue/ordered_heap.rb:8-10 | A heap is attached to its name and to the sorted set stored under it, with the serializer. |
| OrderedHeaps.OrderedHeap.Count | lib/sunspot/redis_index_queue/ordered_heap.rb:38-40 | `count` is the number of distinct serialized values stored. |
| OrderedHeaps.OrderedHeap.Add | lib/sunspot/redis_index_queue/ordered_heap.rb:12-14 | `add` stores the serialized value at the score. The reply is true exactly when the value was not stored before. `count` grows by one exactly then and is otherwise unchanged. |
| OrderedHeaps.OrderedHeap.Range | lib/sunspot/redis_index_queue/ordered_heap.rb:16-18 | `range` returns the deserialized range read: at most `limit` values, each stored with a score in [lo, hi]. It modifies nothing, so two reads in a row agree. |
| OrderedHeaps.OrderedHeap.RangeExtract | lib/sunspot/redis_index_queue/ordered_heap.rb:20-28 | `range!` returns what `range` would and removes exactly those members, with no ZREM at all when it read nothing. `count` falls by the number returned. |
| OrderedHeaps.OrderedHeap.Remove | lib/sunspot/redis_index_queue/ordered_heap.rb:30-32 | `remove(score)` is `range!(score, score)` with the default limit. |
| OrderedHeaps.OrderedHeap.Purge | lib/sunspot/redis_index_queue/ordered_heap.rb:34-36 | `purge` empties the set, `count` becomes 0, and the reply is the old count. |
| OrderedHeaps.AddedValueReadBack | lib/sunspot/redis_index_queue/ordered_heap.rb:44-50 | A value added at a score inside [lo, hi] comes back equal from a range read of [lo, hi] (serialize then unserialize is the identity), provided the limit is not reached. |
| Entries.Slice | lib/sunspot/redis_index_queue/client.rb:19 | `slice(*ATTRIBUTES)` keeps only pairs under the five keys, taken from the given ones, and keeps the last value given under each key. |
| Entries.MergedReadsLastWrite | lib/sunspot/redis_index_queue/client.rb:19 | After `merge` each key holds the last value given under it, or its old value when none was given. |
| Entries.BuiltSpec | lib/sunspot/redis_index_queue/client.rb:18-28 | A new entry holds under each of the five keys the last value given, else the default: no id or class name, not a removal, 0 attempts, due now. Pairs under other keys leave no trace. This row also stands for `Entries.DefaultAttributes` (client.rb:22-28). |
| Entries.BuiltDefaults | lib/sunspot/redis_index_queue/client.rb:22-28 | `Entry.new` with nothing given is the default entry: not a removal, 0 attempts, due now. |
| Entries.Entry.constructor | lib/sunspot/redis_index_queue/client.rb:18-20 | `Entry.new(given)` starts from the built attributes. |
| Entries.Entry.Load | lib/sunspot/redis_index_queue/client.rb:42-44 | `marshal_load` restores exactly the attributes `marshal_dump` handed out. |
| Entries.Entry.Get | lib/sunspot/redis_index_queue/client.rb:46 | The reader for key k returns a pair under key k, which reads back what the writer for k last stored (see `Set`). |
| Entries.Entry.Set | lib/sunspot/redis_index_queue/client.rb:47 | The writer for a key changes that key, to the value written, and no other. |
| Processing.Handle | lib/sunspot/redis_index_queue/client.rb:132-147 | `process_entry` skips an entry exactly when attempts >= max. It succeeds exactly when attempts < max, a request could be formed (a removal, or a record the lookup finds) and the session call returned normally. Otherwise it fails. |
| Processing.HandleRoutes | lib/sunspot/redis_index_queue/client.rb:133-139 | A removal entry sends `remove_by_id(class name, id)`. Any other entry sends `index` of the record found by its class name and id, and sends nothing when the lookup raises. An exhausted entry sends nothing. This row stands for `Processing.Request` and `Processing.Sent`, the dispatch of client.rb:134-138, and for `Entries.Entry.Object`, the record lookup of client.rb:30-32. None of them has a contract of its own. |
| Processing.Retried | lib/sunspot/redis_index_queue/client.rb:144-145 | After a failure the entry has one more attempt and is due `retry_interval` seconds after the failure. Its id, class name and removal flag are kept. |
| Processing.RetryKeepsBound | lib/sunspot/redis_index_queue/client.rb:133-146 | A failed entry that was within the bound stays within it once retried. |
| Processing.FailureChain | lib/sunspot/redis_index_queue/client.rb:133-146 | After n failures an entry has n more attempts and is due `retry_interval` after the last failure. It is skipped exactly when max <= its first attempts count + n. So the failure at attempt max-1 is still re-queued, and that entry is dropped unsent at its next extraction. |
| Processing.Requeued | lib/sunspot/redis_index_queue/client.rb:140-146 | Handling a sequence of entries re-queues at most one entry per entry handled. |
| Processing.RequeuedSpec | lib/sunspot/redis_index_queue/client.rb:140-146 | Every re-queued entry is a handled entry that failed, retried at its own failure time. It has at most max attempts. |
| Processing.FailedIsRequeued | lib/sunspot/redis_index_queue/client.rb:140-146 | Conversely, every handled entry whose handling fails is re-queued, retried at its own failure time. |
| Processing.RequeuedCount | lib/sunspot/redis_index_queue/client.rb:140-146 | Exactly one entry is re-queued per failure: the number re-queued equals the number of handled entries that failed. |
| Processing.ExhaustedLeaveNoTrace | lib/sunspot/redis_index_queue/client.rb:133 | Entries whose attempts are used up send nothing and are not re-queued. |
| Processing.AddAllSpec | lib/sunspot/redis_index_queue/client.rb:146 | Re-adding entries one after another keeps the set well formed. It then holds its old payloads plus the re-added ones, and its size grows by at most the number re-added. |
| Clients.MergedOptionsSpec | lib/sunspot/redis_index_queue/client.rb:69 | After `default_options.merge(client_opts)` each option the client reads holds the last value given, else the default. |
| Clients.ConfiguredOptions | lib/sunspot/redis_index_queue/client.rb:162-200 | The readers return the given value, else 300 seconds between retries, 5 attempts, no index delay. The queue name is "sunspot_index_queue" unless overridden, and a nil `sunspot_index_queue_name` falls back to `queue_name`. This row stands for `Clients.DefaultOptions` (client.rb:190-200), `Clients.QueueNameOf` and the readers `Clients.Client.MaxAttemptsCount`, `RetryInterval`, `QueueName` and `IndexDelay` (client.rb:162-184), none of which has a contract of its own. |
| Clients.NewEntrySpec | lib/sunspot/redis_index_queue/client.rb:150-156 | `index` queues an entry with the record's id and class name, not a removal, 0 attempts, due now + index_delay. `remove` queues the same entry marked as a removal. |
| Clients.IndexDelayDefers | lib/sunspot/redis_index_queue/client.rb:154 | With index_delay D > 0 the entry just queued is not returned by a read up to now, and is returned by a read up to now + D. |
| Clients.ProcessCount | lib/sunspot/redis_index_queue/client.rb:120-123 | After `process` the count is the old count, minus the entries taken out, plus at most one per re-queued entry. It is exactly one each when the re-queued entries serialize apart from each other and from what stayed. |
| Clients.ProcessCountByFailures | lib/sunspot/redis_index_queue/client.rb:120-146 | After `process` the count is the old count, minus the entries taken out, plus at most one per entry whose handling failed. |
| Clients.ProcessKeepsAttemptsBound | lib/sunspot/redis_index_queue/client.rb:133-146 | If every stored entry has at most max attempts, that still holds after `process`. |
| Clients.LoadEntries | lib/sunspot/redis_index_queue/ordered_heap.rb:26 | Unserializing the read payloads gives one new, distinct Entry per payload, in order, each holding the stored attributes. |
| Clients.Client.constructor | lib/sunspot/redis_index_queue/client.rb:67-72 | The client merges the given options over the defaults and attaches a heap named by `queue_name` to the stored set. |
| Clients.Client.Count | lib/sunspot/redis_index_queue/client.rb:76-78 | `count` is the number of distinct entries queued. |
| Clients.Client.NewEntryForObject | lib/sunspot/redis_index_queue/client.rb:150-156 | A new entry built from the record's id, class name and `now + index_delay`, merged with the extra attributes. |
| Clients.Client.Add | lib/sunspot/redis_index_queue/client.rb:99-101 | `add` stores the entry's attributes at `run_at.to_i`. `count` grows by one exactly when no identical entry was queued. |
| Clients.Client.Index | lib/sunspot/redis_index_queue/client.rb:83-86 | `index` stores the new, non-removal entry for the record at its due time. `count` grows by one unless an identical entry was queued. |
| Clients.Client.Remove | lib/sunspot/redis_index_queue/client.rb:91-94 | `remove` does the same with the removal flag set. |
| Clients.Client.Get | lib/sunspot/redis_index_queue/client.rb:106-108 | `get` returns, as new Entry objects in order, what `range!` over [lo.to_i, hi.to_i] returns and removes. `count` falls by that many. |
| Clients.Client.Purge | lib/sunspot/redis_index_queue/client.rb:112-114 | `purge` empties the queue and replies the old count. |
| Clients.Client.ProcessEntry | lib/sunspot/redis_index_queue/client.rb:132-147 | The outcome is `Handle` of the entry, and the session receives exactly the calls `Sent` names. On failure the entry is retried and re-added, and `count` grows by one unless an identical entry was queued. Otherwise neither the entry nor the heap changes. |
| Clients.Client.HandleAll | lib/sunspot/redis_index_queue/client.rb:122 | Handling the extracted entries in order re-adds exactly the `Requeued` ones and sends exactly the `Dispatches` calls. Each entry object that failed ends up retried, and every other one is left as extracted. |
| Clients.Client.Process | lib/sunspot/redis_index_queue/client.rb:120-123 | `process` takes out the entries due in [0, now], at most `limit`, and handles them in order. The heap then holds what stayed plus the re-queued entries, and the session has received the calls of each entry in order. It answers the number taken out, whatever their outcomes. |

## Left out

- The Redis connection (`Redis.connect`) and the network. The sorted set is an in-memory field of the heap.
- The `redis.synchronize` lock around `range!`. The model is sequential, so `range!` is one step.
- The Marshal byte format. The serializer is a pair of functions that round-trip; the payloads are the entry's attributes.
- `constantize.find` is a `Resolver` parameter that may fail. The `@object ||=` memoisation is not modelled, since the resolver is a pure function.
- The session's own work. Whether `index`/`remove_by_id` raises is an input; the `Session` class only records the calls.
- Rails logging in the rescue branch, and the empty `reset`.
- `pop_next_available`: it calls `pop` and `push`, which neither client.rb nor ordered_heap.rb defines.
- `Time.now` is the `now` parameter, or `World.clock(i)` inside `process`. Time is whole seconds plus a sub-second part, so entries built at different instants stay distinct.
- Exceptions other than a failed lookup or session call, such as Redis errors or `add` raising inside the rescue branch. Also attribute values of the wrong Ruby type (a nil attempts count, say).
- The string/symbol key equivalence of `HashWithIndifferentAccess`. Option keys are a datatype.
- The host, port and password options, which only reach `Redis.connect`.
- Changing options after construction (`options[:index_delay] = …` in the tests). `options` is a constant of the client.
- A Ruby hash holds each key once; a repeated key in a literal keeps the last value. The sequence of pairs may repeat a key, and the last pair under it wins, as Ruby does.
- Redis stores scores as double-precision floats, so integer scores above 2^53 lose precision there. The model's `int` scores are exact.
- Clients.Client.Index: `count` grows by one only when no entry with identical serialized attributes was queued, as ZADD does, rather than always.
- Clients.Client.Remove: `count` grows by one only when no entry with identical serialized attributes was queued, as ZADD does, rather than always.
- OrderedHeaps.OrderedHeap.Add: takes the score already truncated. `Client.Add` and `Client.Get` apply `to_i` through `Time.ToI`, and integer scores pass unchanged.
- OrderedHeaps.OrderedHeap.Range: the values it returns are proved to be stored within [lo, hi]; their ascending order is proved on the members (SortedSet.RangeByScoreSpec), not on the decoded values.
- OrderedHeaps.AddedValueReadBack: assumes the heap holds fewer members than the limit, so the added value cannot be cut off.
- Unserializing as `Entry` objects (`marshal_load`) happens in `Clients.LoadEntries` after the heap returns the attributes, not inside the generic heap.
