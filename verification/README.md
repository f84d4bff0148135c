# Attestation registry: a Dafny model

This project models the NEAR contract `AttestationExplorer` of `src/lib.rs`. The
contract is a keyed store of `Attestation` records. A caller submits a `Payload`
(`attestation_id`, `project_id`, `description`, `evidence_uri`). The contract
builds a record from it, stamped with the transaction signer as `attestor` and
with the counter `attested` set to 0, and stores it under its `attestation_id`.
It supports four operations: create, which is an upsert; point lookup;
enumeration of all records; and the last record of the enumeration. A separate
record method, `increment_attested_amount`, adds 1 to the `u32` counter.

Modules, leaf first:

- `Wrappers` (`wrappers.dfy`): the `Option` type, as Rust's `Option`.
- `UnorderedMaps` (`unordered_maps.dfy`): an abstract model of near_sdk's
  `UnorderedMap`, whose source is not part of this model. The map is a sequence of
  distinct keys plus a key-to-value map over exactly those keys. The model assumes
  three things about the library:
  - inserting a new key appends it at the end of the order;
  - inserting an existing key replaces its value in place, so the key keeps its
    position;
  - values are enumerated in key order.
- `Attestations` (`attestation.dfy`): `Payload`, `Attestation`, `U32`,
  `FromPayload`, `IncrementAttestedAmount`.
- `Explorer` (`explorer.dfy`): the contract state and its five public functions.
- `History` (`history.dfy`): replays a whole sequence of `create_attestation`
  calls on a new registry. It states what every such history guarantees:
  - which ids are present;
  - how many records are listed;
  - the order of the listing;
  - which call's record each id holds.

The signer identity is read from the host (`env::signer_account_id()`) in the
source. Here it is an explicit `signer` parameter of `FromPayload` and
`CreateAttestation`.

## Model

| member | source | states |
|---|---|---|
| `UnorderedMaps.Empty` | src/lib.rs:16-20 | A new map is well formed, has no keys, and every lookup finds nothing. |
| `UnorderedMaps.Get` | src/lib.rs:28-30 | A lookup finds a value exactly when the key is in the map's key order. The value found is the entry stored under that key. |
| `UnorderedMaps.Insert` | src/lib.rs:24-25 | Upsert keeps the map well formed and stores the value under the key. Every other key's lookup is unchanged. A new key is appended to the order. An existing key keeps the order as it was (assumed library behaviour). |
| `UnorderedMaps.Values` | src/lib.rs:32-34 | The enumeration has one value per entry, so its length is the number of distinct keys. Position i holds the entry of the i-th key. |
| `UnorderedMaps.Last` | src/lib.rs:36-38 | The last value is None exactly when the enumeration is empty. Otherwise it is the enumeration's final element. |
| `UnorderedMaps.DistinctKeysCount` | src/lib.rs:10 | A well-formed map has exactly as many entries as keys in its order. |
| `UnorderedMaps.InsertFreshAppends` | src/lib.rs:24-25 | Inserting a key that is not present appends its value to the enumeration, and that value becomes the last one. |
| `UnorderedMaps.InsertExistingInPlace` | src/lib.rs:24-25 | Inserting a key that is present replaces its value at the same position. The rest of the enumeration is unchanged. |
| `Attestations.FromPayload` | src/lib.rs:63-72 | The built record copies the payload's `attestation_id`, `project_id`, `description` and `evidence_uri` unchanged. It stamps the given signer as `attestor` and sets `attested` to 0. |
| `Attestations.FromPayloadRoundTrip` | src/lib.rs:63-72 | A built record carries its payload's four strings unchanged. It is exactly the record with that payload, `attestor` equal to the signer, and `attested` equal to 0. |
| `Attestations.IncrementAttestedAmount` | src/lib.rs:74-76 | The increment fails (None, an overflow panic) exactly at `u32::MAX`. Otherwise `attested` rises by exactly 1 and every other field is unchanged. |
| `Attestations.IncrementTimesCounts` | src/lib.rs:74-76 | n increments in a row succeed exactly when `attested + n` stays within `u32`. They then raise `attested` by n and change nothing else. |
| `Attestations.FreshCounterCounts` | src/lib.rs:63-76 | A fresh record after n ≤ `u32::MAX` increments has `attested == n`, and all other fields are as built. |
| `Explorer.New` | src/lib.rs:16-20 | A new registry is well formed. `get_attestations` is empty, `get_last_attestation` is None, and `get_attestation` of every id is None. |
| `Explorer.GetAttestation` | src/lib.rs:28-30 | A record is found exactly for the ids present in the store. A found record carries the id it was looked up by. |
| `Explorer.CreateAttestation` | src/lib.rs:22-26 | The registry stays well formed. The created id now returns the payload's record stamped with the signer. Every other id's lookup is unchanged. |
| `Explorer.GetAttestations` | src/lib.rs:32-34 | The listing has one record per stored id. Position i holds the record of the i-th id in the store's key order. Every listed record is what its own id retrieves. No two listed records share an id. |
| `Explorer.GetLastAttestation` | src/lib.rs:36-38 | The result is None exactly when `get_attestations` is empty. Otherwise it is the final element of `get_attestations`. |
| `Explorer.ListedIffRetrievable` | src/lib.rs:28-34 | A record is in `get_attestations` exactly when `get_attestation` of its id returns it. |
| `Explorer.CreateFreshAppends` | src/lib.rs:22-38 | Creating an id not yet present appends its record to the listing, and that record becomes the last attestation. |
| `Explorer.CreateExistingOverwrites` | src/lib.rs:22-34 | Creating an id already present keeps the listing's length and id order. Only that id's record is replaced, in place. |
| `History.ReplayKeys` | src/lib.rs:22-30 | After any history of creates, an id is present exactly when some call named it. An id never created is absent. |
| `History.ReplayOrder` | src/lib.rs:22-34 | After any history, the key order is the created ids deduplicated by first occurrence. |
| `History.ListingOrder` | src/lib.rs:22-34 | After any history, overwrites included, the ids of `get_attestations` in order are the created ids, each once, in the order of their first creation. |
| `History.DedupSnoc` | src/lib.rs:24-25 | Deduplicating by first occurrence grows by an appended element only when that element is new. |
| `History.ListingCountsDistinctIds` | src/lib.rs:22-34 | The listing's length equals the number of distinct ids ever created, so there are no duplicates. |
| `History.LastWriterWins` | src/lib.rs:22-30 | An id holds the record built by the last call that named it. |
| `History.FreshHistoryListing` | src/lib.rs:22-34 | When no call reuses an id, the listing is the calls' records in call order. |
| `History.FreshHistoryLast` | src/lib.rs:22-38 | When no call reuses an id, the last attestation is the final call's record. |

## Left out

- near_sdk glue is left out because it is runtime plumbing: `#[near_bindgen]`, `#[init]`, `PanicOnDefault`, and the storage prefix `b"attestations"`.
- Borsh and serde serialization of `Payload` and `Attestation` are left out because the wire format belongs to external libraries.
- `env::signer_account_id()` is replaced by the explicit `signer` parameter. `AccountId` validation is the host's concern, so an account id is an opaque string.
- `UnorderedMap` is modelled only through the assumed behaviour stated above. Its storage layout and its `remove` (swap-remove) are not modelled, because the contract never removes anything.
- Gas, persistence across restarts and concurrency are left out. The host runs calls one at a time, and a registry value stands for the state between calls.
- Attestations.IncrementAttestedAmount: models `self.attested + 1` with Rust's overflow checks on, so `u32::MAX` is a panic (None). The build profile is not part of this model, and with overflow checks off the addition would instead wrap to 0. No contract function calls `increment_attested_amount`, so the registry never changes `attested`.
- `create_attestation` returns nothing and validates nothing, so an empty `project_id` is accepted. It silently overwrites an existing id (src/lib.rs:22-26), and the model does the same.
