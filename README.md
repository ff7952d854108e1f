# consistent-rs ketama ring, modelled in Dafny

`consistent-rs` is a small consistent-hashing library. Its ring,
`Ketama<T>`, maps string keys to backend values of type `T`.

- `add(key, val, spot)` gives a backend about `spot` virtual nodes
  ("vnodes"). For each round `i = 0, 1, ...` it digests `key-i` with MD5
  and cuts the 16-byte digest into four 32-bit words. Each word becomes one
  vnode hash that carries `val`.
- `build()` sorts the vnodes by hash.
- `query_u32(h)` returns the value of the first vnode whose hash is at
  least `h`, wrapping to the first vnode when there is none. It returns
  `None` on an empty ring.
- `query(key)` does the same for the BKDR hash of the key's bytes
  (seed 313131, arithmetic modulo 2^32).

The model has five modules:

- `Bytes`: Rust `u8`/`u32` as subset types, the little-endian word read
  from a digest with its encode/decode round trip, and the decimal
  rendering of the round index with its round trip.
- `Hash`: the BKDR hash as a left fold, the loop that computes it, and
  its closed form as a base-313131 polynomial mod 2^32.
- `Vnodes`: the vnode datatype and its `Ord`/`PartialOrd`/`PartialEq`
  comparisons, which look at the hash only.
- `Ring`: the ring as a value.
  - `SortByHash` is the stable sort-by-hash. It is proved sorted, a
    permutation, stable and the unique stable result.
  - `Lookup` is the lower-bound-or-wrap lookup. It is proved to pick the
    nearest successor on the ring.
- `Ketama`: the `Ketama<T>` class. Its `nodes` field is a `seq` that
  `Add` and `Build` reassign. Each method is proved against the `Ring`
  functions and the `AddedNodes` specification. The module also holds the
  repository's test scenario: three backends "a", "b", "c" with 128 vnodes
  each, then a lookup of "233".

MD5 is a parameter `md5: seq<u8> -> Digest` of every operation that
needs it. All results hold for every such function.

## Model

| member | source | states |
|---|---|---|
| Hash.ComputeBkdr | src/lib.rs:8-15 | the loop returns the left fold `h := h * 313131 + b (mod 2^32)` over the key bytes, starting from 0; the empty key hashes to 0 |
| Hash.BkdrIsPolynomial | src/lib.rs:8-15 | the hash of `s` is `s[0]*313131^(n-1) + ... + s[n-1]` reduced mod 2^32, so wrapping at each step loses nothing |
| Vnodes.Cmp | src/lib.rs:24-34 | `Less`, `Equal`, `Greater` exactly when the first hash is smaller, equal, larger |
| Vnodes.PartialCmp | src/lib.rs:38-42 | always `Some`, and `Some(Equal)` exactly when `eq` holds, `Some(Less)`/`Some(Greater)` exactly when the hashes are ordered that way |
| Vnodes.Eq | src/lib.rs:44-48 | two vnodes are equal exactly when `cmp` says `Equal` |
| Vnodes.CmpIgnoresVal | src/lib.rs:24-48 | changing the carried values never changes `cmp` or `eq` |
| Vnodes.CmpIsTotalOrder | src/lib.rs:24-36 | `cmp` is antisymmetric and transitive, and every vnode equals itself, as `Ord` and `Eq` require |
| Bytes.WordAt | src/lib.rs:69 | word `j` of a digest is the `u32` whose four little-endian bytes are digest bytes `4j .. 4j+3` |
| Bytes.EncodeDecode | src/lib.rs:69 | reading four bytes as a word and writing it back yields the same bytes |
| Bytes.DecodeEncode | src/lib.rs:69 | writing a word as four bytes and reading them back yields the same word |
| Bytes.Decimal | src/lib.rs:67 | `i.to_string()` is one or more ASCII digits with no leading zero, a single digit exactly when `i < 10` |
| Bytes.DecimalRoundTrip | src/lib.rs:67 | the digits of `i` read back as a decimal number give `i` |
| Bytes.DecimalInjective | src/lib.rs:67 | distinct round indices render as distinct strings |
| Ketama.Rounds | src/lib.rs:62-63 | `(spot + 3) / 4` is the least `n` with `4n >= spot`; it is 0 exactly when `spot` is 0 |
| Ketama.RoundInputsDistinct | src/lib.rs:64-67 | the digest inputs "key-i" of different rounds of one key differ |
| Ketama.FirstRoundsShape | src/lib.rs:65-76 | after `n` rounds, `4n` vnodes were appended; vnode `k` has word `k % 4` of the digest of "key-(k/4)" as its hash and carries `val` |
| Ketama.AddedNodesShape | src/lib.rs:61-77 | `add` appends `4 * ceil(spot/4)` vnodes, between `spot` and `spot + 3`; none for `spot == 0`; all carry `val` |
| Ketama.AddedNodesHashes | src/lib.rs:61-77 | the appended hashes are, in order, words 0..3 of the digests of "key-0", "key-1", ... |
| Ketama.BackendVnodeCount | src/lib.rs:61-81 | after `add(key, val, spot)` and `build`, exactly `4 * ceil(spot/4)` more vnodes carry `val`, and the count for every other value is unchanged |
| Ketama.Ketama.constructor | src/lib.rs:55-59 | a new ring has no vnodes |
| Ketama.Ketama.Add | src/lib.rs:61-77 | the ring afterwards is the old ring followed by exactly the vnodes `AddedNodes` specifies, in round and word order |
| Ketama.Ketama.PushRound | src/lib.rs:68-74 | the inner loop appends words 0..3 of one digest, in order, each carrying `val` |
| Ring.SortByHashSortsAndPermutes | src/lib.rs:79-81 | the sorted ring is ordered by hash and holds the same vnodes, with multiplicity |
| Ring.SortByHashOfSorted | src/lib.rs:79-81 | sorting a ring that is already in hash order leaves it unchanged |
| Ring.SortByHashIdempotent | src/lib.rs:79-81 | building twice gives the same ring as building once |
| Ring.SortByHashStable | src/lib.rs:79-81 | vnodes with equal hashes keep their relative order, as `slice::sort` promises |
| Ring.StableSortIsSortByHash | src/lib.rs:79-81 | every sorted arrangement that keeps the order within each hash equals `SortByHash`, so any stable sort gives exactly this ring |
| Ring.SortByHashValCount | src/lib.rs:79-81 | sorting keeps the number of vnodes carrying each value |
| Ketama.StableSort | src/lib.rs:80 | the sorting loop returns `SortByHash` of its input |
| Ketama.InsertStep | src/lib.rs:80 | one step moves element `i` into the sorted prefix after every element of no greater hash and leaves the suffix alone |
| Ketama.Ketama.Build | src/lib.rs:79-81 | the new ring is the stable sort of the old one: sorted by hash and a permutation of it |
| Ring.LowerBound | src/lib.rs:87-95 | the search position: every hash before it is below the key, and the hash at it, if any, is at least the key |
| Ring.LookupIsNearestSuccessor | src/lib.rs:83-105 | on a sorted, non-empty ring the chosen vnode is the nearest successor of the key on the circle: the smallest hash at least the key, or the smallest hash overall when the key is above every hash |
| Ring.NearestSuccessorUpToCollision | src/lib.rs:96-105 | every nearest successor has the hash of the chosen vnode; when all hashes are distinct it is the chosen vnode |
| Ketama.Ketama.QueryU32 | src/lib.rs:83-106 | `None` exactly on an empty ring; otherwise a value carried by some vnode of the ring; on a sorted ring, exactly `Lookup(nodes, key)` |
| Ketama.Ketama.Query | src/lib.rs:108-110 | the same as `QueryU32` at the BKDR hash of the key's bytes |
| Ketama.ThreeBackendRing | src/lib.rs:117-122 | adding "a", "b", "c" with values 1, 2, 3 and `spot` vnodes each, then building, gives a sorted ring of `12 * ceil(spot/4)` vnodes, each carrying 1, 2 or 3 |
| Ketama.ThreeBackends | src/lib.rs:124-131 | with 128 vnodes per backend the ring holds 384 vnodes, and the lookup of "233" yields 1, 2 or 3, whatever the digest |

## Left out

- MD5 itself (the `md5` crate) is not modelled. Every operation takes the
  digest function as the parameter `md5`, and each result holds for all
  such functions.
- `&str` keys are modelled as their UTF-8 bytes (`seq<u8>`). The
  conversion `as_bytes` is not modelled.
- The unsafe pointer read at src/lib.rs:69 uses the platform's byte order.
  The model reads little-endian, which is what the common targets
  (x86-64, AArch64) do. A big-endian target would give different hashes.
- Ketama.Ketama.Add: `spot + PER_HASH - 1` is computed on `usize` in the
  source. It overflows, panicking in debug builds, when `spot` is within 3
  of `usize::MAX`; `spot` is an unbounded `nat` in the model. The loop
  counter `i` is unbounded as well.
- Ketama.Ketama.QueryU32: when some vnode's hash equals the key,
  `binary_search_by` may return any of the equal positions. The model
  returns the first. `Ring.NearestSuccessorUpToCollision` shows that every
  candidate has the same hash, and the values are the same when hashes
  are distinct.
- Ketama.Ketama.QueryU32 and Ketama.Ketama.Query: on a ring that was not
  built, the source's binary search has no specified result. The model
  promises only that some vnode's value comes back.
- Ketama.Ketama.Build: `slice::sort` is a merge-based stable sort. The
  model sorts by insertion. `Ring.StableSortIsSortByHash` shows that every
  stable sort yields the same ring, so only the running time differs.
- Ketama.Ketama.constructor: `Vec::with_capacity` only reserves memory.
  The capacity has no observable effect and is ignored.
- `val.clone()` and `Clone` bounds are not modelled: values are Dafny
  values, so a clone is the value itself.
- The `Debug` derive and the test's `println!` output are left out, as is
  `ring.nodes.clear()` at the end of the test, which only empties the
  vector.
- Concurrency: the ring has no interior mutability, so there is nothing
  to model.
