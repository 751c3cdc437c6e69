/** The bytes of the model cache: what the install loop puts in place against what the preflight counted, and how
    far the disk can grow on the way. */
module BlobAccounting {
  import opened Basics
  import opened BlobStore

  // ---------------------------------------------------------------- blobs put in place

  function BytesPlaced(disk: Disk, entries: seq<Entry>, offers: seq<Offer>, hash: Hash): nat
    requires |offers| == |entries|
    decreases |entries|
  {
    if entries == [] then 0 else
      (if Placed(disk, entries[0], offers[0], false, hash).Some? then entries[0].size else 0)
      + BytesPlaced(DiskAfter(disk, entries[0], offers[0], false, hash), entries[1..], offers[1..], hash)
  }

  /** Whatever is missing or wrong-sized when its turn comes is put in place. */
  ghost predicate AllDelivered(disk: Disk, entries: seq<Entry>, offers: seq<Offer>, hash: Hash)
    requires |offers| == |entries|
    decreases |entries|
  {
    entries != [] ==>
      && (RightSize(disk, entries[0]) || Placed(disk, entries[0], offers[0], false, hash).Some?)
      && AllDelivered(DiskAfter(disk, entries[0], offers[0], false, hash), entries[1..], offers[1..], hash)
  }

  /** The bytes of the entries that change the size last demanded for their key, given the demands so far. */
  function Rewritten(entries: seq<Entry>, last: map<Key, nat>): nat {
    if entries == [] then 0 else
      var e := entries[0];
      (if e.key in last && last[e.key] != e.size then e.size else 0)
      + Rewritten(entries[1..], last[e.key := e.size])
  }

  lemma {:induction false} DeliveredAccounting(
      start: Disk, now: Disk, entries: seq<Entry>, offers: seq<Offer>, hash: Hash, last: map<Key, nat>)
    requires |offers| == |entries| && AllDelivered(now, entries, offers, hash)
    requires forall k | k in last :: k in now.blobs && |now.blobs[k]| == last[k]
    requires forall k | k !in last ::
               (k in now.blobs <==> k in start.blobs) && (k in now.blobs ==> now.blobs[k] == start.blobs[k])
    ensures BytesPlaced(now, entries, offers, hash) == MissingFrom(start, entries, last.Keys) + Rewritten(entries, last)
    decreases |entries|
  {
    hide DiskAfter, Placed, Received;
    if entries == [] {
    } else {
      var e := entries[0];
      var next := last[e.key := e.size];
      BlobsAfter(now, e, offers[0], false, hash);
      DeliveredAccounting(start, DiskAfter(now, e, offers[0], false, hash), entries[1..], offers[1..], hash, next);
      assert next.Keys == last.Keys + {e.key};
      if e.key in last { assert next.Keys == last.Keys; }
    }
  }

  /** When every missing blob is delivered, the loop puts in place the bytes the preflight counted plus those of
      entries that demand a new size for a key seen before: whatever blobs are corrupt, the preflight is exact if
      and only if there are no such bytes. */
  lemma PreflightAccounting(disk: Disk, entries: seq<Entry>, offers: seq<Offer>, hash: Hash)
    requires |offers| == |entries| && AllDelivered(disk, entries, offers, hash)
    ensures BytesPlaced(disk, entries, offers, hash) == MissingFrom(disk, entries, {}) + Rewritten(entries, map[])
    ensures SizesAgree(entries) ==> BytesPlaced(disk, entries, offers, hash) == MissingFrom(disk, entries, {})
    ensures (forall i | 0 <= i < |entries| :: entries[i].size > 0) ==>
              (BytesPlaced(disk, entries, offers, hash) == MissingFrom(disk, entries, {}) <==> SizesAgree(entries))
  {
    hide DiskAfter, Placed, AllDelivered;
    DeliveredAccounting(disk, disk, entries, offers, hash, map[]);
    var none: map<Key, nat> := map[];
    assert none.Keys == {};
    AgreementMeansNoRewrite(entries, map[]);
  }

  ghost predicate AgreeWith(entries: seq<Entry>, last: map<Key, nat>) {
    forall i | 0 <= i < |entries| && entries[i].key in last :: entries[i].size == last[entries[i].key]
  }

  lemma {:induction false} AgreementMeansNoRewrite(entries: seq<Entry>, last: map<Key, nat>)
    ensures SizesAgree(entries) && AgreeWith(entries, last) ==> Rewritten(entries, last) == 0
    ensures (forall i | 0 <= i < |entries| :: entries[i].size > 0) && Rewritten(entries, last) == 0 ==>
              SizesAgree(entries) && AgreeWith(entries, last)
  {
    if entries == [] {
    } else {
      var e, rest := entries[0], entries[1..];
      var next := last[e.key := e.size];
      AgreementMeansNoRewrite(rest, next);
      assert forall i | 0 <= i < |rest| :: rest[i] == entries[i + 1];
      if SizesAgree(entries) && AgreeWith(entries, last) {
        assert SizesAgree(rest) && AgreeWith(rest, next);
      }
      if SizesAgree(rest) && AgreeWith(rest, next) && (e.key in last ==> last[e.key] == e.size) {
        assert forall i | 1 <= i < |entries| :: entries[i] == rest[i - 1];
      }
    }
  }

  const EMPTY: Disk := Disk(map[], map[], map[])

  /** A lock may demand two sizes for one object id: then the loop puts more in place than the preflight counted. */
  lemma PreflightUndercounts(hash: Hash)
    ensures var key := Key("owner/model", "oid");
            var entries := [Entry(key, 1, hash([1]), "u"), Entry(key, 2, hash([1, 2]), "v")];
            var offers := [Answer(false, [1]), Answer(false, [1, 2])];
            MissingFrom(EMPTY, entries, {}) == 1 && BytesPlaced(EMPTY, entries, offers, hash) == 3
  {
    var key := Key("owner/model", "oid");
    var a, b := Entry(key, 1, hash([1]), "u"), Entry(key, 2, hash([1, 2]), "v");
    var offers := [Answer(false, [1]), Answer(false, [1, 2])];
    assert [a, b][1..] == [b] && offers[1..] == [Answer(false, [1, 2])];
    FreshDownload(EMPTY, a, [1], hash);
    var first := DiskAfter(EMPTY, a, offers[0], false, hash);
    FreshDownload(first, b, [1, 2], hash);
    assert BytesPlaced(first, [b], offers[1..], hash) == 2;
    assert MissingFrom(EMPTY, [b], {} + {key}) == 0;
  }

  /** An answer in full to a request that nothing precedes. */
  lemma FreshDownload(disk: Disk, e: Entry, body: File, hash: Hash)
    requires !RightSize(disk, e) && Kept(disk, e) == [] && Matches(e, body, hash)
    ensures Placed(disk, e, Answer(false, body), false, hash) == Some(body)
    ensures var after := DiskAfter(disk, e, Answer(false, body), false, hash);
            e.key in after.blobs && after.blobs[e.key] == body && e.key !in after.partials && e.key !in after.metas
  {
    assert [] + body == body;
  }

  ghost predicate Appears(entries: seq<Entry>, key: Key) {
    exists i | 0 <= i < |entries| :: entries[i].key == key
  }

  /** What the preflight counts for a key whose entries demand `size`. */
  function Lacking(disk: Disk, key: Key, size: nat): nat {
    if key in disk.blobs && |disk.blobs[key]| == size then 0 else size
  }

  /** Marking a key as seen removes its own missing bytes from the count, and nothing else. */
  lemma {:induction false} MissingSplit(disk: Disk, entries: seq<Entry>, seen: set<Key>, key: Key, size: nat)
    requires key !in seen
    requires forall i | 0 <= i < |entries| && entries[i].key == key :: entries[i].size == size
    ensures MissingFrom(disk, entries, seen)
            == MissingFrom(disk, entries, seen + {key})
               + if Appears(entries, key) then Lacking(disk, key, size) else 0
  {
    if entries == [] {
    } else {
      var e, rest := entries[0], entries[1..];
      assert forall i | 0 <= i < |rest| :: rest[i] == entries[i + 1];
      assert Appears(entries, key) <==> e.key == key || Appears(rest, key);
      if e.key in seen {
        MissingSplit(disk, rest, seen, key, size);
      } else if e.key != key {
        MissingSplit(disk, rest, seen + {e.key}, key, size);
        assert seen + {e.key} + {key} == seen + {key} + {e.key};
      }
    }
  }

  /** A key already seen may change without changing the count. */
  lemma {:induction false} MissingIgnoresSeen(a: Disk, b: Disk, entries: seq<Entry>, seen: set<Key>)
    requires forall k | k !in seen :: (k in a.blobs <==> k in b.blobs) && (k in a.blobs ==> a.blobs[k] == b.blobs[k])
    ensures MissingFrom(a, entries, seen) == MissingFrom(b, entries, seen)
  {
    if entries == [] {
    } else {
      MissingIgnoresSeen(a, b, entries[1..], seen);
      MissingIgnoresSeen(a, b, entries[1..], seen + {entries[0].key});
    }
  }

  lemma {:induction false} RunKeepsOthers(disk: Disk, entries: seq<Entry>, offers: seq<Offer>, hash: Hash,
                                          failures: nat, key: Key)
    requires |offers| == |entries| && !Appears(entries, key)
    ensures var after := Run(disk, entries, offers, false, hash, failures).0;
            (key in after.blobs <==> key in disk.blobs) && (key in disk.blobs ==> after.blobs[key] == disk.blobs[key])
    decreases |entries|
  {
    hide DiskAfter, Placed, Installed;
    if entries == [] {
    } else {
      assert entries[0].key != key;
      assert forall i | 0 <= i < |entries[1..]| :: entries[1..][i] == entries[i + 1];
      BlobsAfter(disk, entries[0], offers[0], false, hash);
      RunKeepsOthers(DiskAfter(disk, entries[0], offers[0], false, hash), entries[1..], offers[1..], hash,
                     FailuresAfter(disk, entries[0], offers[0], false, hash, failures), key);
    }
  }

  /** Conservation, whatever the network delivers: the bytes of the blobs put in place and the bytes still missing
      after the loop add up to the bytes the preflight counted. */
  lemma {:induction false} BytesAreConserved(
      disk: Disk, entries: seq<Entry>, offers: seq<Offer>, hash: Hash, failures: nat)
    requires |offers| == |entries| && SizesAgree(entries)
    ensures BytesPlaced(disk, entries, offers, hash)
            + MissingFrom(Run(disk, entries, offers, false, hash, failures).0, entries, {})
            == MissingFrom(disk, entries, {})
    decreases |entries|
  {
    hide DiskAfter, Placed, Installed, Run;
    if entries == [] {
      assert Run(disk, entries, offers, false, hash, failures) == (disk, failures) by {
        RunNothing(disk, hash, failures);
      }
    } else {
      var e, rest := entries[0], entries[1..];
      var after := DiskAfter(disk, e, offers[0], false, hash);
      var failed := FailuresAfter(disk, e, offers[0], false, hash, failures);
      var final := Run(after, rest, offers[1..], false, hash, failed).0;
      RunStep(disk, entries, offers, hash, failures);
      assert forall i | 0 <= i < |rest| :: rest[i] == entries[i + 1];
      BytesAreConserved(after, rest, offers[1..], hash, failed);
      BlobsAfter(disk, e, offers[0], false, hash);
      MissingSplit(after, rest, {}, e.key, e.size);
      MissingSplit(final, rest, {}, e.key, e.size);
      MissingIgnoresSeen(disk, after, rest, {e.key});
      if !Appears(rest, e.key) { RunKeepsOthers(after, rest, offers[1..], hash, failed, e.key); }
      assert {} + {e.key} == {e.key};
    }
  }

  lemma RunNothing(disk: Disk, hash: Hash, failures: nat)
    ensures Run(disk, [], [], false, hash, failures) == (disk, failures)
  {
  }

  lemma RunStep(disk: Disk, entries: seq<Entry>, offers: seq<Offer>, hash: Hash, failures: nat)
    requires |offers| == |entries| > 0
    ensures Run(disk, entries, offers, false, hash, failures)
            == Run(DiskAfter(disk, entries[0], offers[0], false, hash), entries[1..], offers[1..], false, hash,
                   FailuresAfter(disk, entries[0], offers[0], false, hash, failures))
  {
  }

  // ---------------------------------------------------------------- growth of the disk

  function SizeAt(files: map<Key, File>, key: Key): nat { if key in files then |files[key]| else 0 }

  /** What a key takes on disk: its blob and its partial file. */
  function KeyBytes(disk: Disk, key: Key): nat { SizeAt(disk.blobs, key) + SizeAt(disk.partials, key) }

  /** How much more the keys of the entries take on `now` than on `start`, each key once. */
  function Growth(start: Disk, now: Disk, entries: seq<Entry>, seen: set<Key>): int {
    if entries == [] then 0
    else if entries[0].key in seen then Growth(start, now, entries[1..], seen)
    else KeyBytes(now, entries[0].key) - KeyBytes(start, entries[0].key)
         + Growth(start, now, entries[1..], seen + {entries[0].key})
  }

  /** The disks the loop passes through: between entries, and before the checks of a download. */
  ghost predicate Moment(disk: Disk, entries: seq<Entry>, offers: seq<Offer>, hash: Hash, now: Disk)
    requires |offers| == |entries|
    decreases |entries|
  {
    now == disk
    || (entries != []
        && ((Downloads(disk, entries[0], offers[0], false) && now == Midway(disk, entries[0], offers[0]))
            || Moment(DiskAfter(disk, entries[0], offers[0], false, hash), entries[1..], offers[1..], hash, now)))
  }

  /** No body is longer than what its entry still asks for. */
  ghost predicate BodiesFit(disk: Disk, entries: seq<Entry>, offers: seq<Offer>, hash: Hash)
    requires |offers| == |entries|
    decreases |entries|
  {
    entries != [] ==>
      && (Downloads(disk, entries[0], offers[0], false) && Received(disk, entries[0], offers[0]).Some? ==>
            |Received(disk, entries[0], offers[0]).value| <= entries[0].size)
      && BodiesFit(DiskAfter(disk, entries[0], offers[0], false, hash), entries[1..], offers[1..], hash)
  }

  /** What holds of a key at every moment of a run whose bodies fit. */
  ghost predicate KeyBounded(start: Disk, now: Disk, e: Entry) {
    if RightSize(start, e) then
      RightSize(now, e) && KeyBytes(now, e.key) <= KeyBytes(start, e.key)
    else
      (RightSize(now, e) && SizeAt(now.partials, e.key) == 0)
      || (!RightSize(now, e) && SizeAt(now.blobs, e.key) == SizeAt(start.blobs, e.key)
          && SizeAt(now.partials, e.key) <= SizeAt(start.partials, e.key) + e.size)
  }

  /** A key's own files. */
  ghost predicate SameFiles(a: Disk, b: Disk, key: Key) {
    && (key in a.blobs <==> key in b.blobs) && (key in a.blobs ==> a.blobs[key] == b.blobs[key])
    && (key in a.partials <==> key in b.partials) && (key in a.partials ==> a.partials[key] == b.partials[key])
  }

  lemma OtherKeysUntouched(now: Disk, e: Entry, offer: Offer, hash: Hash, key: Key)
    requires key != e.key
    ensures SameFiles(now, Midway(now, e, offer), key) && SameFiles(now, DiskAfter(now, e, offer, false, hash), key)
  {
  }

  lemma SameFilesBounded(start: Disk, a: Disk, b: Disk, e: Entry)
    requires SameFiles(a, b, e.key) && KeyBounded(start, a, e)
    ensures KeyBounded(start, b, e)
  {
  }

  lemma OwnKeyBounded(start: Disk, now: Disk, e: Entry, offer: Offer, hash: Hash)
    requires KeyBounded(start, now, e) && Downloads(now, e, offer, false)
    requires Received(now, e, offer).Some? ==> |Received(now, e, offer).value| <= e.size
    ensures KeyBounded(start, Midway(now, e, offer), e)
    ensures KeyBounded(start, DiskAfter(now, e, offer, false, hash), e)
  {
    hide Received;
  }

  lemma BoundOfKey(start: Disk, now: Disk, e: Entry, other: Entry)
    requires other.key == e.key && other.size == e.size
    ensures KeyBounded(start, now, other) <==> KeyBounded(start, now, e)
  {
  }

  /** An install of `e` keeps the bound of every entry of its key, midway and afterwards. */
  lemma InstallBounded(start: Disk, now: Disk, e: Entry, offer: Offer, hash: Hash, other: Entry)
    requires KeyBounded(start, now, other) && (other.key == e.key ==> other.size == e.size)
    requires Downloads(now, e, offer, false) && Received(now, e, offer).Some? ==>
               |Received(now, e, offer).value| <= e.size
    ensures Downloads(now, e, offer, false) ==> KeyBounded(start, Midway(now, e, offer), other)
    ensures KeyBounded(start, DiskAfter(now, e, offer, false, hash), other)
  {
    hide KeyBounded, Midway, Received, SameFiles;
    var after := DiskAfter(now, e, offer, false, hash);
    if other.key != e.key {
      OtherKeysUntouched(now, e, offer, hash, other.key);
      SameFilesBounded(start, now, Midway(now, e, offer), other);
      SameFilesBounded(start, now, after, other);
    } else {
      BoundOfKey(start, now, e, other);
      BoundOfKey(start, Midway(now, e, offer), e, other);
      BoundOfKey(start, after, e, other);
      if Downloads(now, e, offer, false) {
        OwnKeyBounded(start, now, e, offer, hash);
      } else {
        ImportBounded(start, now, e, offer, hash);
      }
    }
  }

  lemma ImportBounded(start: Disk, now: Disk, e: Entry, offer: Offer, hash: Hash)
    requires KeyBounded(start, now, e) && !Downloads(now, e, offer, false)
    ensures KeyBounded(start, DiskAfter(now, e, offer, false, hash), e)
  {
    hide Received, Midway;
  }

  lemma {:induction false} MomentBounded(start: Disk, disk: Disk, entries: seq<Entry>, offers: seq<Offer>, hash: Hash,
                                         now: Disk, other: Entry)
    requires |offers| == |entries| && BodiesFit(disk, entries, offers, hash)
    requires Moment(disk, entries, offers, hash, now) && KeyBounded(start, disk, other)
    requires forall i | 0 <= i < |entries| && entries[i].key == other.key :: entries[i].size == other.size
    ensures KeyBounded(start, now, other)
    decreases |entries|
  {
    hide DiskAfter, Midway, KeyBounded, Downloads, Received;
    if now == disk {
    } else {
      var e := entries[0];
      assert forall i | 0 <= i < |entries[1..]| :: entries[1..][i] == entries[i + 1];
      InstallBounded(start, disk, e, offers[0], hash, other);
      if !(Downloads(disk, e, offers[0], false) && now == Midway(disk, e, offers[0])) {
        MomentBounded(start, DiskAfter(disk, e, offers[0], false, hash), entries[1..], offers[1..], hash, now, other);
      }
    }
  }

  lemma StartBounded(disk: Disk, e: Entry)
    ensures KeyBounded(disk, disk, e)
  {
  }

  lemma BoundedGrowth(start: Disk, now: Disk, e: Entry)
    requires KeyBounded(start, now, e)
    ensures KeyBytes(now, e.key) - KeyBytes(start, e.key) <= if RightSize(start, e) then 0 else e.size
  {
  }

  lemma {:induction false} GrowthBounded(start: Disk, now: Disk, entries: seq<Entry>, seen: set<Key>)
    requires forall i | 0 <= i < |entries| :: KeyBounded(start, now, entries[i])
    ensures Growth(start, now, entries, seen) <= MissingFrom(start, entries, seen)
  {
    hide KeyBounded, KeyBytes;
    if entries == [] {
    } else {
      assert forall i | 0 <= i < |entries[1..]| :: entries[1..][i] == entries[i + 1];
      assert KeyBounded(start, now, entries[0]);
      BoundedGrowth(start, now, entries[0]);
      GrowthBounded(start, now, entries[1..], seen);
      GrowthBounded(start, now, entries[1..], seen + {entries[0].key});
    }
  }

  /** What an accepted preflight guarantees of the loop behind it: at every moment, partial files included, the disk
      has grown by no more than the configured maximum and the reserve is free, provided that no body is longer
      than what its entry still asks for. */
  lemma AcceptedPreflightHolds(disk: Disk, entries: seq<Entry>, offers: seq<Offer>, hash: Hash,
                               maxNew: Option<nat>, minFree: nat, available: nat, now: Disk)
    requires |offers| == |entries| && SizesAgree(entries) && BodiesFit(disk, entries, offers, hash)
    requires Preflight(disk, entries, maxNew, minFree, available).Ok?
    requires Moment(disk, entries, offers, hash, now)
    ensures maxNew.Some? ==> Growth(disk, now, entries, {}) <= maxNew.value
    ensures Growth(disk, now, entries, {}) + minFree <= available
  {
    hide KeyBounded, Moment, BodiesFit, Growth;
    forall i | 0 <= i < |entries| ensures KeyBounded(disk, now, entries[i]) {
      StartBounded(disk, entries[i]);
      assert forall j | 0 <= j < |entries| && entries[j].key == entries[i].key :: entries[j].size == entries[i].size;
      MomentBounded(disk, disk, entries, offers, hash, now, entries[i]);
    }
    GrowthBounded(disk, now, entries, {});
  }

  /** For a lock of one entry the proviso is exact: every accepted preflight keeps its reserve at every moment if
      and only if the partial file never grows by more than the entry's size. */
  lemma OneEntryExactly(disk: Disk, e: Entry, offer: Offer, hash: Hash)
    ensures (forall minFree: nat, available: nat, now: Disk ::
               Preflight(disk, [e], None, minFree, available).Ok? && Moment(disk, [e], [offer], hash, now) ==>
                 Growth(disk, now, [e], {}) + minFree <= available)
            <==> (Downloads(disk, e, offer, false) && Received(disk, e, offer).Some? ==>
                    |Received(disk, e, offer).value| <= SizeAt(disk.partials, e.key) + e.size)
  {
    hide Preflight, Moment, Growth, KeyBytes, DiskAfter, Midway, Received;
    OneEntryGrowth(disk, e, offer, hash);
    OneEntryMissing(disk, e);
    var missing := if RightSize(disk, e) then 0 else e.size;
    if Downloads(disk, e, offer, false) && Received(disk, e, offer).Some?
       && |Received(disk, e, offer).value| > SizeAt(disk.partials, e.key) + e.size
    {
      var midway := Midway(disk, e, offer);
      assert Preflight(disk, [e], None, 0, missing).Ok? && Moment(disk, [e], [offer], hash, midway);
      assert Growth(disk, midway, [e], {}) > missing;
    } else {
      forall minFree: nat, available: nat, now: Disk
        | Preflight(disk, [e], None, minFree, available).Ok? && Moment(disk, [e], [offer], hash, now)
        ensures Growth(disk, now, [e], {}) + minFree <= available
      {
        assert missing + minFree <= available;
      }
    }
  }

  lemma OneEntryMissing(disk: Disk, e: Entry)
    ensures forall minFree: nat, available: nat :: Preflight(disk, [e], None, minFree, available).Ok? <==>
              (if RightSize(disk, e) then 0 else e.size) + minFree <= available
  {
    assert [e][1..] == [] && MissingFrom(disk, [e][1..], {} + {e.key}) == 0;
  }

  /** All that a run of one entry can do to the disk. */
  lemma OneEntryGrowth(disk: Disk, e: Entry, offer: Offer, hash: Hash)
    ensures forall now :: Moment(disk, [e], [offer], hash, now) <==>
              now == disk || now == DiskAfter(disk, e, offer, false, hash)
              || (Downloads(disk, e, offer, false) && now == Midway(disk, e, offer))
    ensures Growth(disk, disk, [e], {}) == 0
    ensures Downloads(disk, e, offer, false) ==>
              var growth := Growth(disk, Midway(disk, e, offer), [e], {});
              match Received(disk, e, offer)
              case None => growth <= 0
              case Some(content) => growth == |content| - SizeAt(disk.partials, e.key)
    ensures Growth(disk, DiskAfter(disk, e, offer, false, hash), [e], {})
            <= Max(if RightSize(disk, e) then 0 else e.size,
                   if Downloads(disk, e, offer, false) then Growth(disk, Midway(disk, e, offer), [e], {}) else 0)
  {
    hide Received;
    assert [e][1..] == [] && [offer][1..] == [];
    forall now ensures Growth(disk, now, [e], {}) == KeyBytes(now, e.key) - KeyBytes(disk, e.key) {
      assert Growth(disk, now, [e][1..], {} + {e.key}) == 0;
    }
  }

  /** A server that sends five bytes for a one-byte entry breaks an accepted preflight, although no blob is put in
      place, and the five bytes stay. */
  lemma LongBodyBreaksReserve(hash: Hash)
    ensures var e := Entry(Key("owner/model", "oid"), 1, "x", "u");
            var offer := Answer(false, [0, 0, 0, 0, 0]);
            var after := Run(EMPTY, [e], [offer], false, hash, 0).0;
            Preflight(EMPTY, [e], Some(1), 0, 1) == Ok(1)
            && BytesPlaced(EMPTY, [e], [offer], hash) == 0 && Growth(EMPTY, after, [e], {}) == 5
  {
    var e := Entry(Key("owner/model", "oid"), 1, "x", "u");
    var offer := Answer(false, [0, 0, 0, 0, 0]);
    assert [e][1..] == [] && [offer][1..] == [];
    assert Received(EMPTY, e, offer) == Some(offer.body) by { assert [] + offer.body == offer.body; }
    OneEntryGrowth(EMPTY, e, offer, hash);
    assert MissingFrom(EMPTY, [e], {}) == 1 + MissingFrom(EMPTY, [e][1..], {} + {e.key});
    assert DiskAfter(EMPTY, e, offer, false, hash) == Midway(EMPTY, e, offer);
  }
}
