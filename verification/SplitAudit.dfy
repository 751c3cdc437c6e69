/** The disjointness audit of corpus splits. */
module SplitAudit {
  datatype Kind = Document | TokenSpan

  /** One hash of one kind. */
  datatype Identity = Identity(kind: Kind, hash: string)

  datatype Record = Record(documentHash: string, tokenHash: string)

  datatype Split = Split(name: string, records: seq<Record>)

  datatype Overlap = Overlap(identity: Identity, firstSplit: string, secondSplit: string)

  /** The identities of a split, in the order the audit meets them. */
  function IdentitiesOf(records: seq<Record>): (ids: seq<Identity>)
    ensures |ids| == 2 * |records|
  {
    if records == [] then [] else
      var n := |records| - 1;
      IdentitiesOf(records[..n])
      + [Identity(Document, records[n].documentHash), Identity(TokenSpan, records[n].tokenHash)]
  }

  predicate Contains(split: Split, id: Identity) { id in IdentitiesOf(split.records) }

  /** Every record is met as its document hash and then as its token-span hash. */
  lemma {:induction false} IdentitiesAt(records: seq<Record>, k: nat)
    requires k < |records|
    ensures IdentitiesOf(records)[2 * k] == Identity(Document, records[k].documentHash)
    ensures IdentitiesOf(records)[2 * k + 1] == Identity(TokenSpan, records[k].tokenHash)
  {
    var n := |records| - 1;
    if k < n { IdentitiesAt(records[..n], k); }
  }

  ghost predicate Carries(r: Record, id: Identity) {
    match id.kind case Document => r.documentHash == id.hash case TokenSpan => r.tokenHash == id.hash
  }

  /** A split contains an identity exactly when one of its records carries the hash in the place of the kind. */
  lemma {:induction false} ContainsExactly(split: Split, id: Identity)
    ensures Contains(split, id) <==> exists r :: r in split.records && Carries(r, id)
    decreases |split.records|
  {
    var records := split.records;
    if records != [] {
      var n := |records| - 1;
      ContainsExactly(Split(split.name, records[..n]), id);
      assert records == records[..n] + [records[n]];
      var last := [Identity(Document, records[n].documentHash), Identity(TokenSpan, records[n].tokenHash)];
      assert Carries(records[n], id) <==> id == last[0] || id == last[1];
      assert forall r :: r in records <==> r in records[..n] || r == records[n];
    }
  }

  /** Two records of different splits that carry the same hash in the same place. */
  ghost predicate SharedHash(splits: seq<Split>, i: int, j: int, a: Record, b: Record) {
    0 <= i < j < |splits| && a in splits[i].records && b in splits[j].records
    && (a.documentHash == b.documentHash || a.tokenHash == b.tokenHash)
  }

  /** Disjointness of the identities, said of the records. */
  lemma DisjointExactly(splits: seq<Split>)
    ensures PairwiseDisjoint(splits) <==> forall i, j, a, b :: !SharedHash(splits, i, j, a, b)
  {
    hide Contains;
    forall k, id | 0 <= k < |splits|
      ensures Contains(splits[k], id) <==> exists r :: r in splits[k].records && Carries(r, id)
    {
      ContainsExactly(splits[k], id);
    }
    if !PairwiseDisjoint(splits) {
      var i, j, id :| 0 <= i < j < |splits| && Contains(splits[i], id) && Contains(splits[j], id);
      var a :| a in splits[i].records && Carries(a, id);
      var b :| b in splits[j].records && Carries(b, id);
      assert SharedHash(splits, i, j, a, b);
    }
    forall i, j, a, b | SharedHash(splits, i, j, a, b) ensures !PairwiseDisjoint(splits) {
      var id := if a.documentHash == b.documentHash then Identity(Document, a.documentHash)
                else Identity(TokenSpan, a.tokenHash);
      assert Carries(a, id) && Carries(b, id);
      assert Contains(splits[i], id) && Contains(splits[j], id);
    }
  }

  /** In how many splits an identity occurs. */
  function Occurrences(splits: seq<Split>, id: Identity): nat {
    if splits == [] then 0
    else Occurrences(splits[..|splits| - 1], id) + (if Contains(splits[|splits| - 1], id) then 1 else 0)
  }

  /** How many reported overlaps are about an identity. */
  function Reported(overlaps: seq<Overlap>, id: Identity): nat {
    if overlaps == [] then 0
    else Reported(overlaps[..|overlaps| - 1], id) + (if overlaps[|overlaps| - 1].identity == id then 1 else 0)
  }

  /** Excess occurrences: one less than the number of splits, or none. */
  function Excess(occurrences: nat): nat { if occurrences == 0 then 0 else occurrences - 1 }

  ghost predicate DistinctNames(splits: seq<Split>) {
    forall i, j | 0 <= i < j < |splits| :: splits[i].name != splits[j].name
  }

  /** Sum of the excess occurrences over a list of identities. */
  function ExcessSum(splits: seq<Split>, ids: seq<Identity>): nat {
    if ids == [] then 0 else ExcessSum(splits, ids[..|ids| - 1]) + Excess(Occurrences(splits, ids[|ids| - 1]))
  }

  ghost predicate PairwiseDisjoint(splits: seq<Split>) {
    forall i, j, id | 0 <= i < j < |splits| :: !(Contains(splits[i], id) && Contains(splits[j], id))
  }

  /** The audit's bookkeeping after the first `i` splits and the first `m` identities of the next one. */
  ghost predicate Consistent(splits: seq<Split>, i: nat, m: nat, owners: map<Identity, string>, overlaps: seq<Overlap>)
    requires i <= |splits| && (i < |splits| ==> m <= |IdentitiesOf(splits[i].records)|) && (i == |splits| ==> m == 0)
  {
    && (forall id :: id in owners <==> Seen(splits, i, m, id) > 0)
    && (forall id | id in owners && i < |splits| :: owners[id] == splits[i].name <==> InPart(splits, i, m, id))
    && (forall id :: Reported(overlaps, id) == Excess(Seen(splits, i, m, id)))
  }

  predicate InPart(splits: seq<Split>, i: nat, m: nat, id: Identity)
    requires i <= |splits| && (i < |splits| ==> m <= |IdentitiesOf(splits[i].records)|)
  {
    i < |splits| && id in IdentitiesOf(splits[i].records)[..m]
  }

  /** Splits met so far that contain an identity, counting the part of split `i` already scanned. */
  function Seen(splits: seq<Split>, i: nat, m: nat, id: Identity): nat
    requires i <= |splits| && (i < |splits| ==> m <= |IdentitiesOf(splits[i].records)|)
  {
    Occurrences(splits[..i], id) + (if InPart(splits, i, m, id) then 1 else 0)
  }

  /** One step of the inner loop: look the owner up, report a different one, take ownership. */
  method Visit(split: string, id: Identity, owners: map<Identity, string>, overlaps: seq<Overlap>)
    returns (owners': map<Identity, string>, overlaps': seq<Overlap>)
    ensures owners' == owners[id := split]
    ensures overlaps' == if id in owners && owners[id] != split
                         then overlaps + [Overlap(id, owners[id], split)] else overlaps
  {
    overlaps' := overlaps;
    if id in owners && owners[id] != split {
      overlaps' := overlaps' + [Overlap(id, owners[id], split)];
    }
    owners' := owners[id := split];
  }

  lemma ReportedAppend(overlaps: seq<Overlap>, o: Overlap, id: Identity)
    ensures Reported(overlaps + [o], id) == Reported(overlaps, id) + (if o.identity == id then 1 else 0)
  {
    assert (overlaps + [o])[..|overlaps|] == overlaps;
  }

  lemma VisitKeepsConsistent(splits: seq<Split>, i: nat, m: nat, owners: map<Identity, string>, overlaps: seq<Overlap>,
                             owners': map<Identity, string>, overlaps': seq<Overlap>)
    requires i < |splits| && m < |IdentitiesOf(splits[i].records)|
    requires Consistent(splits, i, m, owners, overlaps)
    requires var id := IdentitiesOf(splits[i].records)[m];
             owners' == owners[id := splits[i].name]
             && overlaps' == if id in owners && owners[id] != splits[i].name
                             then overlaps + [Overlap(id, owners[id], splits[i].name)] else overlaps
    ensures Consistent(splits, i, m + 1, owners', overlaps')
  {
    hide Occurrences, Reported, IdentitiesOf;
    var ids := IdentitiesOf(splits[i].records);
    var id := ids[m];
    assert ids[..m + 1] == ids[..m] + [id];
    forall x: Identity
      ensures InPart(splits, i, m + 1, x) <==> InPart(splits, i, m, x) || x == id
      ensures Seen(splits, i, m + 1, x)
              == Seen(splits, i, m, x) + (if x == id && !InPart(splits, i, m, id) then 1 else 0)
    {
    }
    forall x: Identity ensures Reported(overlaps', x) == Excess(Seen(splits, i, m + 1, x)) {
      if id in owners && owners[id] != splits[i].name {
        ReportedAppend(overlaps, Overlap(id, owners[id], splits[i].name), x);
      }
    }
  }

  lemma NextSplit(splits: seq<Split>, i: nat, owners: map<Identity, string>, overlaps: seq<Overlap>)
    requires DistinctNames(splits) && i < |splits|
    requires Consistent(splits, i, |IdentitiesOf(splits[i].records)|, owners, overlaps)
    requires OwnersLatest(splits, i, |IdentitiesOf(splits[i].records)|, owners)
    ensures Consistent(splits, i + 1, 0, owners, overlaps)
    ensures OwnersLatest(splits, i + 1, 0, owners)
  {
    hide Reported, IdentitiesOf;
    var ids := IdentitiesOf(splits[i].records);
    assert ids[..|ids|] == ids && splits[..i + 1][..i] == splits[..i];
    forall x: Identity ensures Seen(splits, i + 1, 0, x) == Seen(splits, i, |ids|, x) {
    }
    forall x | x in owners
      ensures exists k :: LastHolder(splits, i + 1, 0, x, k) && splits[k].name == owners[x]
      ensures i + 1 < |splits| ==> owners[x] != splits[i + 1].name
    {
      var k :| LastHolder(splits, i, |ids|, x, k) && splits[k].name == owners[x];
      assert LastHolder(splits, i + 1, 0, x, k);
    }
  }

  /** Split `k` is the last one so far that contains an identity. */
  ghost predicate LastHolder(splits: seq<Split>, i: nat, m: nat, id: Identity, k: int)
    requires i <= |splits| && (i < |splits| ==> m <= |IdentitiesOf(splits[i].records)|)
  {
    0 <= k <= i && k < |splits| && Contains(splits[k], id)
    && (forall between | k < between < i :: !Contains(splits[between], id))
    && (InPart(splits, i, m, id) <==> k == i)
  }

  /** The owner of an identity is the last split so far that contains it. */
  ghost predicate OwnersLatest(splits: seq<Split>, i: nat, m: nat, owners: map<Identity, string>)
    requires i <= |splits| && (i < |splits| ==> m <= |IdentitiesOf(splits[i].records)|)
  {
    forall id | id in owners :: exists k :: LastHolder(splits, i, m, id, k) && splits[k].name == owners[id]
  }

  /** An overlap names two splits that contain its identity, the first before the second and none between them. */
  ghost predicate Links(splits: seq<Split>, o: Overlap, a: int, b: int) {
    0 <= a < b < |splits| && splits[a].name == o.firstSplit && splits[b].name == o.secondSplit
    && Contains(splits[a], o.identity) && Contains(splits[b], o.identity)
    && forall between | a < between < b :: !Contains(splits[between], o.identity)
  }

  ghost predicate AllLinked(splits: seq<Split>, overlaps: seq<Overlap>) {
    forall o | o in overlaps :: exists a, b :: Links(splits, o, a, b)
  }

  /** The audit: two nested loops over one ownership map. For every identity it reports one overlap less than
      the number of splits that contain it, each between neighbouring holders, and it passes exactly when the
      splits are pairwise disjoint. */
  method AuditDisjoint(splits: seq<Split>) returns (pass: bool, overlaps: seq<Overlap>)
    requires DistinctNames(splits)
    ensures forall id :: Reported(overlaps, id) == Excess(Occurrences(splits, id))
    ensures AllLinked(splits, overlaps)
    ensures pass <==> overlaps == []
    ensures pass <==> forall i, j, a, b :: !SharedHash(splits, i, j, a, b)
  {
    hide Reported, Occurrences, IdentitiesOf, Consistent, OwnersLatest, AllLinked;
    var owners: map<Identity, string> := map[];
    overlaps := [];
    var i := 0;
    Beginning(splits);
    while i < |splits|
      invariant 0 <= i <= |splits|
      invariant Consistent(splits, i, 0, owners, overlaps)
      invariant OwnersLatest(splits, i, 0, owners) && AllLinked(splits, overlaps)
    {
      var ids := IdentitiesOf(splits[i].records);
      var m := 0;
      while m < |ids|
        invariant 0 <= m <= |ids|
        invariant Consistent(splits, i, m, owners, overlaps)
        invariant OwnersLatest(splits, i, m, owners) && AllLinked(splits, overlaps)
      {
        var owners', overlaps' := Visit(splits[i].name, ids[m], owners, overlaps);
        VisitKeepsConsistent(splits, i, m, owners, overlaps, owners', overlaps');
        VisitLinks(splits, i, m, owners, overlaps, owners', overlaps');
        owners, overlaps := owners', overlaps';
        m := m + 1;
      }
      NextSplit(splits, i, owners, overlaps);
      i := i + 1;
    }
    Ending(splits, owners, overlaps);
    DisjointExactly(splits);
    pass := overlaps == [];
  }

  lemma VisitLinks(splits: seq<Split>, i: nat, m: nat, owners: map<Identity, string>, overlaps: seq<Overlap>,
                   owners': map<Identity, string>, overlaps': seq<Overlap>)
    requires i < |splits| && m < |IdentitiesOf(splits[i].records)|
    requires OwnersLatest(splits, i, m, owners) && AllLinked(splits, overlaps)
    requires var id := IdentitiesOf(splits[i].records)[m];
             owners' == owners[id := splits[i].name]
             && overlaps' == if id in owners && owners[id] != splits[i].name
                             then overlaps + [Overlap(id, owners[id], splits[i].name)] else overlaps
    ensures OwnersLatest(splits, i, m + 1, owners') && AllLinked(splits, overlaps')
  {
    hide IdentitiesOf;
    var ids := IdentitiesOf(splits[i].records);
    var id := ids[m];
    assert ids[..m + 1] == ids[..m] + [id];
    assert Contains(splits[i], id);
    forall x | x in owners' ensures exists k :: LastHolder(splits, i, m + 1, x, k) && splits[k].name == owners'[x] {
      if x == id {
        assert LastHolder(splits, i, m + 1, id, i);
      } else {
        var k :| LastHolder(splits, i, m, x, k) && splits[k].name == owners[x];
        assert LastHolder(splits, i, m + 1, x, k);
      }
    }
    forall o | o in overlaps' ensures exists a, b :: Links(splits, o, a, b) {
      if o !in overlaps {
        var k :| LastHolder(splits, i, m, id, k) && splits[k].name == owners[id];
        assert Links(splits, o, k, i);
      }
    }
  }

  lemma Beginning(splits: seq<Split>)
    ensures Consistent(splits, 0, 0, map[], []) && OwnersLatest(splits, 0, 0, map[]) && AllLinked(splits, [])
  {
    assert splits[..0] == [];
  }

  lemma Ending(splits: seq<Split>, owners: map<Identity, string>, overlaps: seq<Overlap>)
    requires Consistent(splits, |splits|, 0, owners, overlaps)
    ensures forall id :: Reported(overlaps, id) == Excess(Occurrences(splits, id))
    ensures overlaps == [] <==> PairwiseDisjoint(splits)
  {
    assert splits[..|splits|] == splits;
    assert forall id :: Seen(splits, |splits|, 0, id) == Occurrences(splits, id);
    if PairwiseDisjoint(splits) && overlaps != [] {
      var o := overlaps[|overlaps| - 1];
      DisjointOccurrences(splits, o.identity);
    }
    if overlaps == [] {
      forall i, j, id | 0 <= i < j < |splits| ensures !(Contains(splits[i], id) && Contains(splits[j], id)) {
        if Contains(splits[i], id) && Contains(splits[j], id) { TwoOccurrences(splits, i, j, id); }
      }
    }
  }

  lemma {:induction false} DisjointOccurrences(splits: seq<Split>, id: Identity)
    requires PairwiseDisjoint(splits)
    ensures Occurrences(splits, id) <= 1
    ensures (forall k | 0 <= k < |splits| :: !Contains(splits[k], id)) ==> Occurrences(splits, id) == 0
  {
    if splits == [] {
    } else {
      var n := |splits| - 1;
      assert forall k | 0 <= k < n :: splits[..n][k] == splits[k];
      DisjointOccurrences(splits[..n], id);
    }
  }

  lemma {:induction false} OneOccurrence(splits: seq<Split>, i: nat, id: Identity)
    requires i < |splits| && Contains(splits[i], id)
    ensures Occurrences(splits, id) >= 1
  {
    var n := |splits| - 1;
    if i >= n {
    } else {
      OneOccurrence(splits[..n], i, id);
    }
  }

  lemma {:induction false} TwoOccurrences(splits: seq<Split>, i: nat, j: nat, id: Identity)
    requires i < j < |splits| && Contains(splits[i], id) && Contains(splits[j], id)
    ensures Occurrences(splits, id) >= 2
  {
    var n := |splits| - 1;
    if j < n {
      TwoOccurrences(splits[..n], i, j, id);
    } else {
      OneOccurrence(splits[..n], i, id);
    }
  }

  ghost predicate Distinct(ids: seq<Identity>) { forall i, j | 0 <= i < j < |ids| :: ids[i] != ids[j] }

  /** The number of reported overlaps is the sum of the excess occurrences, over any duplicate-free list of
      identities that covers the reported ones. */
  lemma {:induction false} OverlapCountIsExcessSum(splits: seq<Split>, overlaps: seq<Overlap>, ids: seq<Identity>)
    requires Distinct(ids)
    requires forall id :: Reported(overlaps, id) == Excess(Occurrences(splits, id))
    requires forall k | 0 <= k < |overlaps| :: overlaps[k].identity in ids
    ensures |overlaps| == ExcessSum(splits, ids)
  {
    ReportedSum(overlaps, ids);
    ExcessIsReported(splits, overlaps, ids);
  }

  function SumReported(overlaps: seq<Overlap>, ids: seq<Identity>): nat {
    if ids == [] then 0 else SumReported(overlaps, ids[..|ids| - 1]) + Reported(overlaps, ids[|ids| - 1])
  }

  lemma {:induction false} ExcessIsReported(splits: seq<Split>, overlaps: seq<Overlap>, ids: seq<Identity>)
    requires forall id :: Reported(overlaps, id) == Excess(Occurrences(splits, id))
    ensures SumReported(overlaps, ids) == ExcessSum(splits, ids)
  {
    if ids == [] {
    } else {
      ExcessIsReported(splits, overlaps, ids[..|ids| - 1]);
    }
  }

  lemma {:induction false} ReportedSum(overlaps: seq<Overlap>, ids: seq<Identity>)
    requires Distinct(ids) && forall k | 0 <= k < |overlaps| :: overlaps[k].identity in ids
    ensures SumReported(overlaps, ids) == |overlaps|
  {
    if overlaps == [] {
      NothingReported(ids);
    } else {
      var n := |overlaps| - 1;
      ReportedSum(overlaps[..n], ids);
      var k :| 0 <= k < |ids| && ids[k] == overlaps[n].identity;
      OneMoreReported(overlaps, ids, k);
    }
  }

  lemma {:induction false} NothingReported(ids: seq<Identity>)
    ensures SumReported([], ids) == 0
  {
    if ids == [] {
    } else {
      NothingReported(ids[..|ids| - 1]);
    }
  }

  lemma {:induction false} SameReported(overlaps: seq<Overlap>, ids: seq<Identity>)
    requires overlaps != [] && overlaps[|overlaps| - 1].identity !in ids
    ensures SumReported(overlaps, ids) == SumReported(overlaps[..|overlaps| - 1], ids)
  {
    if ids == [] {
    } else {
      SameReported(overlaps, ids[..|ids| - 1]);
    }
  }

  lemma {:induction false} OneMoreReported(overlaps: seq<Overlap>, ids: seq<Identity>, k: nat)
    requires overlaps != [] && Distinct(ids) && k < |ids| && ids[k] == overlaps[|overlaps| - 1].identity
    ensures SumReported(overlaps, ids) == SumReported(overlaps[..|overlaps| - 1], ids) + 1
  {
    var n := |ids| - 1;
    if k < n {
      OneMoreReported(overlaps, ids[..n], k);
    } else {
      SameReported(overlaps, ids[..n]);
    }
  }
}
