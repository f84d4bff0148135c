/**
 * The registry contract `AttestationExplorer`: a keyed store of attestations
 * with create (upsert), point lookup, enumeration and last-record queries.
 */
module Explorer {
  import opened Wrappers
  import opened Attestations
  import M = UnorderedMaps

  /**
   * The contract state: `listed_attestations`, an `UnorderedMap<String, Attestation>`
   * modelled by `UnorderedMaps` (new keys appended, existing keys replaced in
   * place, values enumerated in key order — an assumption about near_sdk).
   */
  datatype AttestationExplorer = AttestationExplorer(listed: M.UnorderedMap<string, Attestation>)
  {
    /** The map is well formed and every record is stored under its own id. */
    predicate Valid() {
      && listed.Valid()
      && forall k :: k in listed.entries ==> listed.entries[k].attestation_id == k
    }
  }

  /** `AttestationExplorer::new`: a registry with no attestations. */
  function New(): (e: AttestationExplorer)
    ensures e.Valid()
    ensures GetAttestations(e) == []
    ensures GetLastAttestation(e) == None
    ensures forall id :: GetAttestation(e, id) == None
  {
    AttestationExplorer(M.Empty())
  }

  /** `get_attestation`: the record stored under `id`, or None. */
  function GetAttestation(e: AttestationExplorer, id: string): (r: Option<Attestation>)
    requires e.Valid()
    ensures r.Some? <==> id in e.listed.keys
    ensures r.Some? ==> r.value.attestation_id == id
  {
    M.Get(e.listed, id)
  }

  /**
   * `create_attestation`: builds the record from the payload, stamped with the
   * signer, and upserts it under its id.
   */
  function CreateAttestation(e: AttestationExplorer, payload: Payload, signer: AccountId)
    : (r: AttestationExplorer)
    requires e.Valid()
    ensures r.Valid()
    ensures GetAttestation(r, payload.attestation_id) == Some(FromPayload(payload, signer))
    ensures forall j :: j != payload.attestation_id ==> GetAttestation(r, j) == GetAttestation(e, j)
  {
    var a := FromPayload(payload, signer);
    AttestationExplorer(M.Insert(e.listed, a.attestation_id, a))
  }

  /** `get_attestations`: every stored record, in the map's key order. */
  function GetAttestations(e: AttestationExplorer): (vs: seq<Attestation>)
    requires e.Valid()
    ensures |vs| == |e.listed.keys| == |e.listed.entries|
    ensures forall i :: 0 <= i < |vs| ==> vs[i].attestation_id == e.listed.keys[i]
    ensures forall i :: 0 <= i < |vs| ==> GetAttestation(e, vs[i].attestation_id) == Some(vs[i])
    ensures forall i, j :: 0 <= i < j < |vs| ==> vs[i].attestation_id != vs[j].attestation_id
  {
    M.Values(e.listed)
  }

  /** `get_last_attestation`: the final record of the enumeration, or None. */
  function GetLastAttestation(e: AttestationExplorer): (r: Option<Attestation>)
    requires e.Valid()
    ensures r.None? <==> GetAttestations(e) == []
    ensures r.Some? ==> r.value == GetAttestations(e)[|GetAttestations(e)| - 1]
  {
    M.Last(e.listed)
  }

  /** Lookup and enumeration agree: a record is listed iff it is what its id retrieves. */
  lemma ListedIffRetrievable(e: AttestationExplorer, a: Attestation)
    requires e.Valid()
    ensures a in GetAttestations(e) <==> GetAttestation(e, a.attestation_id) == Some(a)
  {
  }

  /** Creating an id not yet present appends its record, which becomes the last one. */
  lemma CreateFreshAppends(e: AttestationExplorer, payload: Payload, signer: AccountId)
    requires e.Valid()
    requires GetAttestation(e, payload.attestation_id) == None
    ensures GetAttestations(CreateAttestation(e, payload, signer))
         == GetAttestations(e) + [FromPayload(payload, signer)]
    ensures GetLastAttestation(CreateAttestation(e, payload, signer))
         == Some(FromPayload(payload, signer))
  {
    M.InsertFreshAppends(e.listed, payload.attestation_id, FromPayload(payload, signer));
  }

  /**
   * Creating an id already present overwrites its record in place: the
   * enumeration keeps its length and order, only that position changes.
   */
  lemma CreateExistingOverwrites(e: AttestationExplorer, payload: Payload, signer: AccountId)
    requires e.Valid()
    requires GetAttestation(e, payload.attestation_id).Some?
    ensures var before := GetAttestations(e);
            var after := GetAttestations(CreateAttestation(e, payload, signer));
            && |after| == |before|
            && forall i :: 0 <= i < |before| ==>
                 after[i] == (if before[i].attestation_id == payload.attestation_id
                              then FromPayload(payload, signer) else before[i])
  {
  }
}
