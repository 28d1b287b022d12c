# Item service core in Dafny

A model of the logic inside a small FastAPI demonstration service (`main.py`).
The service keeps an in-memory list of `Item` records and offers CRUD
handlers over it. It also has two diagnostic endpoints that do real
computation: one grows a process-wide list of large strings, and one runs a
CPU-bound loop that sums primes found by trial division.

- `wrappers.dfy` (module `Wrappers`): `Option` and `Result`.
- `item_store.dfy` (module `ItemStore`): `Item`, the store as `seq<Item>`,
  the five handlers as pure functions, and a request dispatcher `Handle`.
  Every mutating handler returns a `Step`: the store after the call plus
  either the answer or an `Error` (`NotFound` for HTTP 404, `Conflict` for
  HTTP 400).
- `item_store_props.dfy` (module `ItemStoreProps`): uniqueness of ids under
  each handler and under whole runs of requests, read-after-write facts, and
  ordered creation.
- `memory_leak.dfy` (module `MemoryLeak`): the growth counter and its report.
- `cpu_intensive.dfy` (module `CpuIntensive`): the integer square root, the
  trial-division test, its equivalence with primality, and the accumulator
  loop.
- `cpu_endpoint.dfy` (module `CpuEndpoint`): the endpoint, which runs the
  loop with the service's fixed bound of one million.

The unique-id invariant is the centre of the store model. Create keeps it.
Update can break it, because the handler writes the supplied record into the
slot without comparing the record's own id with the path id. The model keeps
this behaviour. `UpdateUniqueIff` states exactly when an update keeps ids
unique, and `UpdateCanDuplicateIds` shows a concrete update that breaks it.

After `update_item(id, X)` with `X.id != id`, `get_item(id)` no longer
finds `X`. Get scans by id, and the overwritten slot now carries `X.id`.
`UpdateThenRead` proves that get returns `X` when `X.id == id`.
`UpdateForeignIdThenRead` proves that get fails with NotFound when
`X.id != id` and the ids were unique.

## Model

| member | source | states |
|---|---|---|
| ItemStore.FirstIndex | main.py:52 | the scan over `enumerate(items_db)` yields no index exactly when no item carries the id; otherwise it yields the smallest index whose item carries the id |
| ItemStore.ReadItems | main.py:30-31 | list answers with every stored item, in storage order and with nothing added or dropped |
| ItemStore.ReadItem | main.py:35-39 | get fails with NotFound exactly when no stored item carries the id; otherwise it returns the item at the smallest index carrying the id |
| ItemStore.CreateItem | main.py:43-47 | an id already in the store gives Conflict and leaves the store unchanged; a fresh id echoes the item, and the store grows by one with the item at the end and every earlier item kept in place |
| ItemStore.UpdateItem | main.py:51-56 | an absent id gives NotFound and leaves the store unchanged; a present id echoes the record and puts it verbatim at the first matching index, with the same length and every other index unchanged |
| ItemStore.DeleteItem | main.py:60-65 | an absent id gives NotFound and leaves the store unchanged; a present id removes exactly the first matching item (`s[..k] + s[k+1..]`), so the length drops by one and the rest keep their order |
| ItemStore.Handle | main.py:29-65 | list and get never change the store; a failed request never changes it; Conflict arises exactly for a create of an id in use; NotFound arises exactly for get, update or delete of an absent id; list answers with the whole store; a successful get answers the item at the first index carrying the id; a successful create leaves `s + [item]`, a successful update leaves `s[k := item]` and a successful delete leaves `s[..k] + s[k+1..]`, where `k` is the first index carrying the id |
| ItemStoreProps.ReadItemIsMembership | main.py:36-39 | on a store with unique ids, get of `id` returns `x` exactly when `x` is stored and carries `id` |
| ItemStoreProps.CreatePreservesUnique | main.py:44-46 | if ids are pairwise distinct before a create, they still are afterwards, whether the create succeeds or fails |
| ItemStoreProps.DeletePreservesUnique | main.py:61-64 | delete keeps ids pairwise distinct |
| ItemStoreProps.CreateDuplicateExample | main.py:43-47 | creating `{id 1, "a", 2.5}` and then `{id 1, "b", 3}` on an empty store accepts the first, refuses the second with Conflict, and leaves a list of only the first |
| ItemStoreProps.UpdateUniqueIff | main.py:52-55 | on a unique store with the id present, the store after update has unique ids exactly when the new record keeps the path id or carries an id not in use |
| ItemStoreProps.UpdateCanDuplicateIds | main.py:55 | updating id 1 of `[1, 2]` with a record carrying id 2 succeeds and leaves two items with id 2 |
| ItemStoreProps.UpdateThenRead | main.py:36-39 | after updating a present id with a record that keeps that id, get of the id returns that record |
| ItemStoreProps.UpdateForeignIdThenRead | main.py:52-55 | after updating a present id of a unique store with a record carrying another id, get of the path id fails with NotFound |
| ItemStoreProps.DeleteThenRead | main.py:61-64 | after deleting a present id of a unique store, get of the id fails with NotFound and the store has one item fewer |
| ItemStoreProps.CreateAllAppends | main.py:30-31 | creating items with pairwise distinct ids, none already stored, appends them in creation order, and list returns exactly the earlier items followed by them; the starting store may itself hold duplicate ids |
| ItemStoreProps.HandlePreservesUnique | main.py:29-65 | every request keeps ids unique, except an update whose record carries an id other than the path id |
| ItemStoreProps.RunPreservesUnique | main.py:18 | any sequence of requests whose updates keep their path id keeps the store's ids unique from start to end |
| MemoryLeak.SimulateMemoryLeak | main.py:100-112 | one call appends exactly one block of 100 × 1024 × 1024 characters and keeps the earlier blocks; the report gives the new count and count × 100 MB |
| MemoryLeak.Repeat | main.py:104 | `n` calls give `n` reports and grow the list by `n` blocks, each a fresh block of 100 × 1024 × 1024 characters, never altering the blocks already stored |
| MemoryLeak.RepeatCounts | main.py:104-110 | the i-th of `n` calls reports `start + i + 1` blocks and `100 × (start + i + 1)` MB |
| MemoryLeak.SizesIncrease | main.py:106 | starting from an empty list, each call reports a strictly larger size than every call before it |
| MemoryLeak.ReportedSizeIsExact | main.py:103-106 | when every block was appended by the endpoint, the reported size in MB, times 1024 × 1024, equals the number of characters held |
| CpuIntensive.Isqrt | main.py:125 | the bound of the inner loop is the largest `r` with `r * r <= i` |
| CpuIntensive.TrialPrimeIsPrime | main.py:123-128 | the trial-division test (above 1, no divisor in 2 .. isqrt(i)) holds exactly when `i` is prime |
| CpuIntensive.TrialDivision | main.py:123-128 | the guarded inner loop with its early `break` answers true exactly when no `j` in 2 .. isqrt(i) divides `i` and `i > 1`, which is exactly primality |
| CpuIntensive.CpuIntensiveTask | main.py:120-133 | the loop's result is the sum over `i` in `0 .. bound-1` of `i` when `i` is prime, plus `(i * i) % 1000` for every `i` |
| CpuEndpoint.CpuIntensiveEndpoint | main.py:120-121 | the endpoint runs the same pass with the bound of one million, so its result is the accumulated sum for that bound |
| CpuIntensive.AccumulatedTen | main.py:120-133 | with a bound of 10 the accumulated result is 302 (primes 2, 3, 5, 7 and squares mod 1000 summing to 285) |
| CpuIntensive.AccumulatedMonotone | main.py:130-133 | the accumulated result never decreases as the bound grows |

## Left out

- HTTP routing, status codes and `HTTPException` detail strings: errors are the `Error` values `NotFound` (404) and `Conflict` (400).
- Request parsing and validation by Pydantic: every `Item` value is taken as well formed.
- `price` is a Python float that is never computed on; it is modelled as a `real`, so NaN and infinities are not represented.
- The root greeting (main.py:25-27) and the fixed message strings of the diagnostic endpoints: constant text with nothing to verify.
- The thread-pool and sequential task endpoints and `cpu_bound_work` (main.py:67-96, 144-147): they only sleep, use threads and read the clock.
- Timing fields (`time.time()` and the formatted elapsed seconds): wall-clock behaviour.
- Races between concurrent requests on the shared list: the model serves one request at a time.
- MemoryLeak.SimulateMemoryLeak: a block is kept only as its length, not as the 100 MB string, and `approximate_size_mb` is the number without its `"MB"` suffix.
- CpuIntensive.Isqrt: it replaces the float expression `int(i ** 0.5)`; that the two agree for every `i` below one million is not proved here.
- CpuIntensive.CpuIntensiveTask: the bound is a parameter; `CpuEndpoint.CpuIntensiveEndpoint` fixes it at one million (`ServiceBound`), and the concrete result for that bound is not computed.
