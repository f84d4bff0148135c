/**
 * The record types of the registry: the creation `Payload` a caller submits and
 * the stored `Attestation` built from it, with its `attested` counter.
 */
module Attestations {
  import opened Wrappers

  /** Rust's `u32`. */
  newtype U32 = x: int | 0 <= x <= 0xFFFF_FFFF

  const U32_MAX: U32 := 0xFFFF_FFFF

  /**
   * near_sdk's `AccountId`. The host validates account names; here it is an
   * opaque string supplied by the caller of each mutating operation.
   */
  type AccountId = string

  /** What a caller submits to `create_attestation`. */
  datatype Payload = Payload(
    attestation_id: string,
    project_id: string,
    description: string,
    evidence_uri: string)

  /** A stored record: the payload fields, the signer who created it and a counter. */
  datatype Attestation = Attestation(
    attestation_id: string,
    project_id: string,
    attestor: AccountId,
    description: string,
    evidence_uri: string,
    attested: U32)

  /**
   * `Attestation::from_payload`. The signer identity, which the source reads from
   * the host (`env::signer_account_id()`), is the explicit parameter `signer`.
   */
  function FromPayload(payload: Payload, signer: AccountId): (a: Attestation)
    ensures a.attestation_id == payload.attestation_id
    ensures a.project_id == payload.project_id
    ensures a.description == payload.description
    ensures a.evidence_uri == payload.evidence_uri
    ensures a.attestor == signer
    ensures a.attested == 0
  {
    Attestation(payload.attestation_id, payload.project_id, signer,
                payload.description, payload.evidence_uri, 0)
  }

  /** The payload fields an attestation carries. */
  function ToPayload(a: Attestation): Payload {
    Payload(a.attestation_id, a.project_id, a.description, a.evidence_uri)
  }

  /** A freshly built record loses nothing of its payload and is identified by signer and counter. */
  lemma FromPayloadRoundTrip(payload: Payload, signer: AccountId, a: Attestation)
    ensures ToPayload(FromPayload(payload, signer)) == payload
    ensures FromPayload(payload, signer) == a
        <==> ToPayload(a) == payload && a.attestor == signer && a.attested == 0
  {
  }

  /**
   * `Attestation::increment_attested_amount`: `attested + 1` on a `u32`. With
   * Rust's overflow checks on, the addition panics at `u32::MAX` and the call
   * aborts; that outcome is None.
   */
  function IncrementAttestedAmount(a: Attestation): (r: Option<Attestation>)
    ensures r.None? <==> a.attested == U32_MAX
    ensures r.Some? ==> r.value.attested as int == a.attested as int + 1
    ensures r.Some? ==> r.value == a.(attested := r.value.attested)
  {
    if a.attested == U32_MAX then None
    else Some(a.(attested := a.attested + 1))
  }

  /** `n` calls of `increment_attested_amount` in a row; None once one of them panics. */
  function IncrementTimes(a: Attestation, n: nat): Option<Attestation>
    decreases n
  {
    if n == 0 then Some(a)
    else
      match IncrementAttestedAmount(a)
      case None => None
      case Some(a') => IncrementTimes(a', n - 1)
  }

  /**
   * `n` increments succeed exactly when the counter stays within `u32`, and then
   * raise `attested` by exactly `n` and change nothing else.
   */
  lemma {:induction false} IncrementTimesCounts(a: Attestation, n: nat)
    ensures IncrementTimes(a, n).Some? <==> a.attested as int + n <= U32_MAX as int
    ensures IncrementTimes(a, n).Some? ==>
              IncrementTimes(a, n).value == a.(attested := (a.attested as int + n) as U32)
    decreases n
  {
    if n > 0 {
      if a.attested == U32_MAX {
        assert IncrementTimes(a, n) == None;
      } else {
        var a' := a.(attested := a.attested + 1);
        assert IncrementAttestedAmount(a) == Some(a');
        IncrementTimesCounts(a', n - 1);
      }
    }
  }

  /** A fresh record counts exactly the increments applied to it, up to `u32::MAX`. */
  lemma FreshCounterCounts(payload: Payload, signer: AccountId, n: nat)
    requires n <= U32_MAX as int
    ensures IncrementTimes(FromPayload(payload, signer), n)
         == Some(FromPayload(payload, signer).(attested := n as U32))
  {
    IncrementTimesCounts(FromPayload(payload, signer), n);
  }
}
