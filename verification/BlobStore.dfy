/** The content-addressed model cache as it lies on disk: blobs, partial downloads and their sidecars. What the
    preflight counts, and what a download, an install and the install loop do. */
module BlobStore {
  import opened Basics

  /** A blob is stored per repository under its object id. */
  datatype Key = Key(repository: string, identity: string)

  type File = seq<byte>

  type Hash = File -> string

  /** A lock entry: where its blob lives, the size and digest it demands, and where to fetch it. */
  datatype Entry = Entry(key: Key, size: nat, digest: string, url: string)

  /** What the sidecar of a partial download records. */
  datatype Meta = Meta(url: string, size: nat, digest: string)

  datatype Disk = Disk(blobs: map<Key, File>, partials: map<Key, File>, metas: map<Key, Meta>)

  /** What answers an install: no body at all, a body with the status of the response (206 for a range), or, with
      an import directory, the file found there. */
  datatype Offer = Unreachable | Answer(isRange: bool, body: File) | Local(found: Option<File>)

  function MetaOf(e: Entry): Meta { Meta(e.url, e.size, e.digest) }

  predicate RightSize(disk: Disk, e: Entry) { e.key in disk.blobs && |disk.blobs[e.key]| == e.size }

  /** False for a missing or wrong-sized file; an error for a right-sized file with another digest. */
  function Verify(disk: Disk, e: Entry, hash: Hash): Result<bool> {
    if !RightSize(disk, e) then Ok(false) else if hash(disk.blobs[e.key]) == e.digest then Ok(true) else Err
  }

  // ---------------------------------------------------------------- one download

  /** A partial file is kept unless a sidecar of another download lies beside it. */
  predicate KeepsPartial(disk: Disk, e: Entry) { e.key in disk.metas ==> disk.metas[e.key] == MetaOf(e) }

  /** The bytes the download resumes from. */
  function Kept(disk: Disk, e: Entry): File {
    if KeepsPartial(disk, e) && e.key in disk.partials then disk.partials[e.key] else []
  }

  /** The disk once the sidecar is compared and written. */
  function Opened(disk: Disk, e: Entry): Disk {
    Disk(disk.blobs, if KeepsPartial(disk, e) then disk.partials else disk.partials - {e.key},
         disk.metas[e.key := MetaOf(e)])
  }

  /** What the partial file holds once the body is written, if any is: nothing bounds the body. */
  function Received(disk: Disk, e: Entry, offer: Offer): Option<File> {
    if |Kept(disk, e)| > e.size || !offer.Answer? || (|Kept(disk, e)| > 0 && !offer.isRange) then None
    else Some(Kept(disk, e) + offer.body)
  }

  /** The disk before the size and the digest are checked. */
  function Midway(disk: Disk, e: Entry, offer: Offer): Disk {
    match Received(disk, e, offer)
    case None => Opened(disk, e)
    case Some(content) => Opened(disk, e).(partials := disk.partials[e.key := content])
  }

  predicate Matches(e: Entry, content: File, hash: Hash) { |content| == e.size && hash(content) == e.digest }

  /** The disk behind a download: a wrong size leaves the partial file, a wrong digest deletes it, and a match
      turns it into the blob. */
  function Settled(disk: Disk, e: Entry, offer: Offer, hash: Hash): Disk {
    var midway := Midway(disk, e, offer);
    match Received(disk, e, offer)
    case None => midway
    case Some(content) =>
      if |content| != e.size then midway
      else Disk(if hash(content) == e.digest then disk.blobs[e.key := content] else disk.blobs,
                midway.partials - {e.key}, midway.metas - {e.key})
  }

  // ---------------------------------------------------------------- one entry, and the loop

  /** The file that installing `e` puts in place, if it does. */
  function Placed(disk: Disk, e: Entry, offer: Offer, verifyOnly: bool, hash: Hash): Option<File> {
    if verifyOnly || RightSize(disk, e) then None else
      var content := if offer.Local? then offer.found else Received(disk, e, offer);
      if content.Some? && Matches(e, content.value, hash) then content else None
  }

  /** Installing downloads: nothing of the right size is there, and there is no import directory. */
  predicate Downloads(disk: Disk, e: Entry, offer: Offer, verifyOnly: bool) {
    !verifyOnly && !RightSize(disk, e) && !offer.Local?
  }

  function DiskAfter(disk: Disk, e: Entry, offer: Offer, verifyOnly: bool, hash: Hash): Disk {
    if Downloads(disk, e, offer, verifyOnly) then Settled(disk, e, offer, hash)
    else match Placed(disk, e, offer, verifyOnly, hash)
      case None => disk
      case Some(file) => disk.(blobs := disk.blobs[e.key := file], partials := disk.partials - {e.key})
  }

  predicate Installed(disk: Disk, e: Entry, offer: Offer, verifyOnly: bool, hash: Hash) {
    Verify(disk, e, hash) == Ok(true) || Placed(disk, e, offer, verifyOnly, hash).Some?
  }

  /** Of the blobs, an install changes what it puts in place and nothing else. */
  lemma BlobsAfter(disk: Disk, e: Entry, offer: Offer, verifyOnly: bool, hash: Hash)
    ensures var placed := Placed(disk, e, offer, verifyOnly, hash);
            DiskAfter(disk, e, offer, verifyOnly, hash).blobs
            == (if placed.Some? then disk.blobs[e.key := placed.value] else disk.blobs)
            && (placed.Some? ==> Matches(e, placed.value, hash) && !RightSize(disk, e))
  {
  }

  function FailuresAfter(disk: Disk, e: Entry, offer: Offer, verifyOnly: bool, hash: Hash, failures: nat): nat {
    if Installed(disk, e, offer, verifyOnly, hash) then failures else failures + 1
  }

  /** The whole loop: the final disk and the number of failed entries. A failure does not stop the loop. */
  function Run(disk: Disk, entries: seq<Entry>, offers: seq<Offer>, verifyOnly: bool, hash: Hash,
               failures: nat): (Disk, nat)
    requires |offers| == |entries|
    decreases |entries|
  {
    if entries == [] then (disk, failures) else
      Run(DiskAfter(disk, entries[0], offers[0], verifyOnly, hash), entries[1..], offers[1..], verifyOnly, hash,
          FailuresAfter(disk, entries[0], offers[0], verifyOnly, hash, failures))
  }

  /** The preflight's count: the first entry of each key decides. */
  function MissingFrom(disk: Disk, entries: seq<Entry>, seen: set<Key>): nat {
    if entries == [] then 0
    else if entries[0].key in seen then MissingFrom(disk, entries[1..], seen)
    else (if RightSize(disk, entries[0]) then 0 else entries[0].size)
         + MissingFrom(disk, entries[1..], seen + {entries[0].key})
  }

  /** The capacity check: the missing bytes must fit the configured maximum, and leave the reserve free. */
  function Preflight(disk: Disk, entries: seq<Entry>, maxNew: Option<nat>, minFree: nat, available: nat): Result<nat> {
    var missing := MissingFrom(disk, entries, {});
    if (maxNew.Some? && missing > maxNew.value) || missing + minFree > available then Err else Ok(missing)
  }

  class Cache {
    var disk: Disk

    constructor (disk: Disk)
      ensures this.disk == disk
    {
      this.disk := disk;
    }

    method MissingBlobBytes(entries: seq<Entry>) returns (missing: nat)
      ensures missing == MissingFrom(disk, entries, {})
    {
      missing := 0;
      var seen: set<Key> := {};
      for i := 0 to |entries|
        invariant missing + MissingFrom(disk, entries[i..], seen) == MissingFrom(disk, entries, {})
      {
        var e := entries[i];
        assert entries[i..][1..] == entries[i + 1..];
        if e.key in seen { continue; }
        seen := seen + {e.key};
        if !RightSize(disk, e) { missing := missing + e.size; }
      }
    }

    /** The number of missing bytes when they fit both the configured maximum and the free space. */
    method CapacityPreflight(entries: seq<Entry>, maxNew: Option<nat>, minFree: nat, available: nat)
        returns (r: Result<nat>)
      ensures r == Preflight(disk, entries, maxNew, minFree, available)
      ensures var missing := MissingFrom(disk, entries, {});
              r == if (maxNew.None? || missing <= maxNew.value) && missing + minFree <= available then Ok(missing)
                   else Err
    {
      var missing := MissingBlobBytes(entries);
      if maxNew.Some? && missing > maxNew.value { return Err; }
      if missing + minFree > available { return Err; }
      return Ok(missing);
    }

    /** Download into the partial file, behind what an earlier attempt left there, then check and move it. The
        ghost result is the disk as it stood before the checks. */
    method Download(e: Entry, offer: Offer, hash: Hash) returns (ok: bool, ghost midway: Disk)
      requires !offer.Local?
      modifies this
      ensures disk == Settled(old(disk), e, offer, hash) && midway == Midway(old(disk), e, offer)
      ensures ok <==> var content := Received(old(disk), e, offer); content.Some? && Matches(e, content.value, hash)
    {
      var key := e.key;
      var metadataMatches := key !in disk.metas || disk.metas[key] == MetaOf(e);
      if key in disk.partials && !metadataMatches { disk := disk.(partials := disk.partials - {key}); }
      if key in disk.metas && !metadataMatches { disk := disk.(metas := disk.metas - {key}); }
      if key !in disk.metas { disk := disk.(metas := disk.metas[key := MetaOf(e)]); }
      assert disk == Opened(old(disk), e);
      midway := disk;
      var offset := if key in disk.partials then |disk.partials[key]| else 0;
      if offset > e.size { return false, midway; }
      if offer.Unreachable? { return false, midway; }
      if offset > 0 && !offer.isRange { return false, midway; }
      var content := if offset > 0 then disk.partials[key] + offer.body else offer.body;
      assert content == Kept(old(disk), e) + offer.body;
      disk := disk.(partials := disk.partials[key := content]);
      midway := disk;
      assert midway.partials == old(disk).partials[key := content];
      if |content| != e.size { return false, midway; }
      if hash(content) != e.digest {
        disk := disk.(partials := disk.partials - {key}, metas := disk.metas - {key});
        return false, midway;
      }
      disk := Disk(disk.blobs[key := content], disk.partials - {key}, disk.metas - {key});
      return true, midway;
    }

    /** Install one entry: an error for a corrupt blob or a bad offer, false when only verifying. */
    method InstallEntry(e: Entry, offer: Offer, verifyOnly: bool, hash: Hash) returns (r: Result<bool>)
      modifies this
      ensures disk == DiskAfter(old(disk), e, offer, verifyOnly, hash)
      ensures r == Ok(true) <==> Installed(old(disk), e, offer, verifyOnly, hash)
      ensures r == Ok(false) <==> verifyOnly && !RightSize(old(disk), e)
      ensures r == Ok(true) ==> e.key in disk.blobs && Matches(e, disk.blobs[e.key], hash)
    {
      var present := Verify(disk, e, hash);
      if present.Err? { return Err; }
      if !present.value {
        if verifyOnly { return Ok(false); }
        if offer.Local? {
          if offer.found.None? || |offer.found.value| != e.size { return Err; }
          if hash(offer.found.value) != e.digest { return Err; }
          disk := disk.(partials := disk.partials - {e.key});
          disk := disk.(blobs := disk.blobs[e.key := offer.found.value]);
        } else {
          var downloaded, _ := Download(e, offer, hash);
          if !downloaded { return Err; }
        }
        present := Verify(disk, e, hash);
        if present != Ok(true) { return Err; }
      }
      return Ok(true);
    }

    method InstallAll(entries: seq<Entry>, offers: seq<Offer>, verifyOnly: bool, hash: Hash) returns (failures: nat)
      requires |offers| == |entries|
      modifies this
      ensures (disk, failures) == Run(old(disk), entries, offers, verifyOnly, hash, 0)
    {
      hide DiskAfter, Installed;
      failures := 0;
      for i := 0 to |entries|
        invariant Run(disk, entries[i..], offers[i..], verifyOnly, hash, failures)
                  == Run(old(disk), entries, offers, verifyOnly, hash, 0)
      {
        var r := InstallEntry(entries[i], offers[i], verifyOnly, hash);
        assert entries[i..][1..] == entries[i + 1..] && offers[i..][1..] == offers[i + 1..];
        if r != Ok(true) { failures := failures + 1; }
      }
    }
  }

  ghost predicate SizesAgree(entries: seq<Entry>) {
    forall i, j | 0 <= i < j < |entries| && entries[i].key == entries[j].key :: entries[i].size == entries[j].size
  }

  ghost predicate BlobsAgree(entries: seq<Entry>) {
    forall i, j | 0 <= i < j < |entries| && entries[i].key == entries[j].key ::
      entries[i].size == entries[j].size && entries[i].digest == entries[j].digest
  }

  /** Every entry's blob is in place, byte count and digest. */
  ghost predicate Complete(disk: Disk, entries: seq<Entry>, hash: Hash) {
    forall i | 0 <= i < |entries| :: Verify(disk, entries[i], hash) == Ok(true)
  }

  lemma {:induction false} FailuresGrow(
      disk: Disk, entries: seq<Entry>, offers: seq<Offer>, verifyOnly: bool, hash: Hash, failures: nat)
    requires |offers| == |entries|
    ensures Run(disk, entries, offers, verifyOnly, hash, failures).1 >= failures
    decreases |entries|
  {
    hide DiskAfter, Installed;
    if entries == [] {
    } else {
      FailuresGrow(DiskAfter(disk, entries[0], offers[0], verifyOnly, hash), entries[1..], offers[1..], verifyOnly,
                   hash, FailuresAfter(disk, entries[0], offers[0], verifyOnly, hash, failures));
    }
  }

  /** Verifying changes nothing, and reports no failure exactly when the store is complete. */
  lemma {:induction false} VerifyOnlyDecides(
      disk: Disk, entries: seq<Entry>, offers: seq<Offer>, hash: Hash, failures: nat)
    requires |offers| == |entries|
    ensures Run(disk, entries, offers, true, hash, failures).0 == disk
    ensures Run(disk, entries, offers, true, hash, failures).1 == failures <==> Complete(disk, entries, hash)
    decreases |entries|
  {
    hide Verify;
    if entries == [] {
    } else {
      var e, rest := entries[0], entries[1..];
      var failed := FailuresAfter(disk, e, offers[0], true, hash, failures);
      assert forall i | 0 <= i < |rest| :: rest[i] == entries[i + 1];
      assert forall i | 1 <= i < |entries| :: entries[i] == rest[i - 1];
      VerifyOnlyDecides(disk, rest, offers[1..], hash, failed);
      FailuresGrow(disk, rest, offers[1..], true, hash, failed);
    }
  }

  /** A complete store stays as it is: nothing fails and nothing changes, whatever is offered. */
  lemma {:induction false} CompleteIsStable(
      disk: Disk, entries: seq<Entry>, offers: seq<Offer>, verifyOnly: bool, hash: Hash, failures: nat)
    requires |offers| == |entries| && Complete(disk, entries, hash)
    ensures Run(disk, entries, offers, verifyOnly, hash, failures) == (disk, failures)
    decreases |entries|
  {
    if entries == [] {
    } else {
      assert Verify(disk, entries[0], hash) == Ok(true);
      assert forall i | 0 <= i < |entries[1..]| :: entries[1..][i] == entries[i + 1];
      CompleteIsStable(disk, entries[1..], offers[1..], verifyOnly, hash, failures);
    }
  }

  /** Blobs already in place survive the rest of the loop. */
  lemma {:induction false} CompleteSurvives(
      disk: Disk, done: Entry, entries: seq<Entry>, offers: seq<Offer>, verifyOnly: bool, hash: Hash, failures: nat)
    requires |offers| == |entries| && Verify(disk, done, hash) == Ok(true)
    requires forall i | 0 <= i < |entries| && entries[i].key == done.key :: entries[i].size == done.size
    ensures Verify(Run(disk, entries, offers, verifyOnly, hash, failures).0, done, hash) == Ok(true)
    decreases |entries|
  {
    hide DiskAfter, Installed, Placed, Received;
    if entries == [] {
    } else {
      assert forall i | 0 <= i < |entries[1..]| :: entries[1..][i] == entries[i + 1];
      BlobsAfter(disk, entries[0], offers[0], verifyOnly, hash);
      CompleteSurvives(DiskAfter(disk, entries[0], offers[0], verifyOnly, hash), done,
                       entries[1..], offers[1..], verifyOnly, hash,
                       FailuresAfter(disk, entries[0], offers[0], verifyOnly, hash, failures));
    }
  }

  /** A run without failures leaves every entry's blob in place, when entries of one key demand one blob. */
  lemma {:induction false} CleanRunCompletes(
      disk: Disk, entries: seq<Entry>, offers: seq<Offer>, verifyOnly: bool, hash: Hash, failures: nat)
    requires |offers| == |entries| && BlobsAgree(entries)
    requires Run(disk, entries, offers, verifyOnly, hash, failures).1 == failures
    ensures Complete(Run(disk, entries, offers, verifyOnly, hash, failures).0, entries, hash)
    decreases |entries|
  {
    hide DiskAfter, Placed, Received;
    if entries == [] {
    } else {
      var e, rest := entries[0], entries[1..];
      var after := DiskAfter(disk, e, offers[0], verifyOnly, hash);
      assert forall i | 0 <= i < |rest| :: rest[i] == entries[i + 1];
      assert forall i | 1 <= i < |entries| :: entries[i] == rest[i - 1];
      assert Installed(disk, e, offers[0], verifyOnly, hash) by {
        if !Installed(disk, e, offers[0], verifyOnly, hash) {
          FailuresGrow(after, rest, offers[1..], verifyOnly, hash, failures + 1);
        }
      }
      BlobsAfter(disk, e, offers[0], verifyOnly, hash);
      CleanRunCompletes(after, rest, offers[1..], verifyOnly, hash, failures);
      CompleteSurvives(after, e, rest, offers[1..], verifyOnly, hash, failures);
    }
  }
}
