/**
 * Whole histories of `create_attestation` calls on a new registry: which ids
 * are present, how many records are listed, in which order, and which call's
 * record each id holds.
 */
module History {
  import opened Wrappers
  import opened Attestations
  import opened Explorer
  import M = UnorderedMaps

  /** One `create_attestation` call: its payload and the signer of the transaction. */
  datatype Call = Call(payload: Payload, signer: AccountId)

  /** The registry after `new()` followed by `calls`, in order. */
  function Replay(calls: seq<Call>): (e: AttestationExplorer)
    ensures e.Valid()
  {
    if calls == [] then New()
    else
      var last := calls[|calls| - 1];
      CreateAttestation(Replay(calls[..|calls| - 1]), last.payload, last.signer)
  }

  /** The ids named by `calls`, in call order (with repetitions). */
  function IdsOf(calls: seq<Call>): (ids: seq<string>)
    ensures |ids| == |calls|
    ensures forall i :: 0 <= i < |calls| ==> ids[i] == calls[i].payload.attestation_id
  {
    if calls == [] then [] else IdsOf(calls[..|calls| - 1]) + [calls[|calls| - 1].payload.attestation_id]
  }

  /** `xs` with every occurrence of `x` dropped. */
  function Remove(xs: seq<string>, x: string): (r: seq<string>)
    ensures |r| <= |xs|
    ensures forall y :: y in r <==> y in xs && y != x
  {
    if xs == [] then []
    else if xs[0] == x then Remove(xs[1..], x)
    else [xs[0]] + Remove(xs[1..], x)
  }

  /** The distinct elements of `xs`, each at the place of its first occurrence. */
  function Dedup(xs: seq<string>): (r: seq<string>)
    decreases |xs|
  {
    if xs == [] then [] else [xs[0]] + Dedup(Remove(xs[1..], xs[0]))
  }

  lemma {:induction false} RemoveAppend(xs: seq<string>, ys: seq<string>, x: string)
    ensures Remove(xs + ys, x) == Remove(xs, x) + Remove(ys, x)
    decreases |xs|
  {
    if xs != [] {
      assert (xs + ys)[1..] == xs[1..] + ys;
      RemoveAppend(xs[1..], ys, x);
    } else {
      assert xs + ys == ys;
    }
  }

  /** Appending an element extends the deduplication only when the element is new. */
  lemma {:induction false} DedupSnoc(xs: seq<string>, x: string)
    ensures Dedup(xs + [x]) == if x in xs then Dedup(xs) else Dedup(xs) + [x]
    decreases |xs|
  {
    if xs == [] {
      assert xs + [x] == [x];
      assert Dedup([x]) == [x] + Dedup(Remove([], x));
    } else {
      var h, t := xs[0], xs[1..];
      assert (xs + [x])[0] == h;
      assert (xs + [x])[1..] == t + [x];
      RemoveAppend(t, [x], h);
      if x == h {
        assert Remove([x], h) == [];
        assert t + [x] + [] == t + [x];
        assert Remove(t + [x], h) == Remove(t, h);
      } else {
        assert [x][1..] == [];
        assert Remove([x], h) == [x];
        assert Remove(t + [x], h) == Remove(t, h) + [x];
        DedupSnoc(Remove(t, h), x);
        assert x in Remove(t, h) <==> x in xs;
        assert Dedup(xs + [x]) == [h] + Dedup(Remove(t + [x], h));
      }
    }
  }

  /** Exactly the ids some call created are present; every other id is absent. */
  lemma {:induction false} ReplayKeys(calls: seq<Call>, id: string)
    ensures GetAttestation(Replay(calls), id).Some? <==> id in IdsOf(calls)
  {
    if calls != [] {
      var init := calls[..|calls| - 1];
      ReplayKeys(init, id);
      assert IdsOf(calls) == IdsOf(init) + [calls[|calls| - 1].payload.attestation_id];
    }
  }

  /** The listing order is the order in which ids were first created. */
  lemma {:induction false} ReplayOrder(calls: seq<Call>)
    ensures Replay(calls).listed.keys == Dedup(IdsOf(calls))
  {
    if calls != [] {
      var init := calls[..|calls| - 1];
      var x := calls[|calls| - 1].payload.attestation_id;
      ReplayOrder(init);
      ReplayKeys(init, x);
      assert IdsOf(calls) == IdsOf(init) + [x];
      DedupSnoc(IdsOf(init), x);
    }
  }

  /** The ids of the listing, in listing order. */
  function ListedIds(vs: seq<Attestation>): (ids: seq<string>)
    ensures |ids| == |vs|
    ensures forall i :: 0 <= i < |vs| ==> ids[i] == vs[i].attestation_id
  {
    if vs == [] then [] else ListedIds(vs[..|vs| - 1]) + [vs[|vs| - 1].attestation_id]
  }

  /**
   * After any history, overwrites included, `get_attestations` lists the created
   * ids in the order of their first creation, each once.
   */
  lemma ListingOrder(calls: seq<Call>)
    ensures ListedIds(GetAttestations(Replay(calls))) == Dedup(IdsOf(calls))
  {
    ReplayOrder(calls);
    ListedIdsAreKeys(Replay(calls));
  }

  /** The listing's ids are the store's key order. */
  lemma ListedIdsAreKeys(e: AttestationExplorer)
    requires e.Valid()
    ensures ListedIds(GetAttestations(e)) == e.listed.keys
  {
    var listed := ListedIds(GetAttestations(e));
    assert forall i :: 0 <= i < |listed| ==> listed[i] == e.listed.keys[i];
  }

  /** No duplicates: the listing holds exactly one record per distinct id ever created. */
  lemma ListingCountsDistinctIds(calls: seq<Call>)
    ensures |GetAttestations(Replay(calls))| == |set id | id in IdsOf(calls)|
  {
    var keys, ids := Replay(calls).listed.keys, IdsOf(calls);
    M.DistinctCardinality(keys);
    forall id ensures id in keys <==> id in ids {
      ReplayKeys(calls, id);
    }
    SameElementsSameSet(keys, ids);
  }

  /** Two sequences with the same elements have the same element set. */
  lemma SameElementsSameSet(xs: seq<string>, ys: seq<string>)
    requires forall x :: x in xs <==> x in ys
    ensures (set x | x in xs) == (set y | y in ys)
  {
  }

  /** Last writer wins: an id holds the record built by the last call that named it. */
  lemma {:induction false} LastWriterWins(calls: seq<Call>, i: nat)
    requires i < |calls|
    requires forall j :: i < j < |calls| ==>
               calls[j].payload.attestation_id != calls[i].payload.attestation_id
    ensures GetAttestation(Replay(calls), calls[i].payload.attestation_id)
         == Some(FromPayload(calls[i].payload, calls[i].signer))
  {
    if i < |calls| - 1 {
      LastWriterWins(calls[..|calls| - 1], i);
    }
  }

  /** The record each call builds. */
  function Built(c: Call): Attestation {
    FromPayload(c.payload, c.signer)
  }

  /** The records `calls` build, in call order. */
  function BuiltAll(calls: seq<Call>): (rs: seq<Attestation>)
    ensures |rs| == |calls|
    ensures forall i :: 0 <= i < |calls| ==> rs[i] == Built(calls[i])
  {
    if calls == [] then [] else BuiltAll(calls[..|calls| - 1]) + [Built(calls[|calls| - 1])]
  }

  /** Dropping the last element keeps a sequence repetition-free; that element was new. */
  lemma DistinctSnoc(xs: seq<string>, x: string)
    requires M.Distinct(xs + [x])
    ensures M.Distinct(xs)
    ensures x !in xs
  {
    assert forall i :: 0 <= i < |xs| ==> (xs + [x])[i] == xs[i];
    assert (xs + [x])[|xs|] == x;
  }

  /** Without overwrites the listing is the calls' records in call order. */
  lemma {:induction false} FreshHistoryListing(calls: seq<Call>)
    requires M.Distinct(IdsOf(calls))
    ensures GetAttestations(Replay(calls)) == BuiltAll(calls)
  {
    if calls != [] {
      var init, c := calls[..|calls| - 1], calls[|calls| - 1];
      var id := c.payload.attestation_id;
      DistinctSnoc(IdsOf(init), id);
      FreshHistoryListing(init);
      ReplayKeys(init, id);
      CreateFreshAppends(Replay(init), c.payload, c.signer);
    }
  }

  /** Without overwrites the last attestation is the record of the final call. */
  lemma FreshHistoryLast(calls: seq<Call>)
    requires calls != []
    requires M.Distinct(IdsOf(calls))
    ensures GetLastAttestation(Replay(calls)) == Some(Built(calls[|calls| - 1]))
  {
    FreshHistoryListing(calls);
  }
}
