/** What failed downloads leave behind in the model cache, and when a run against an honest server is clean. */
module BlobRecovery {
  import opened Basics
  import opened BlobStore

  // ---------------------------------------------------------------- what one install does

  ghost predicate SameBut(a: Disk, b: Disk, key: Key) {
    forall other | other != key ::
      && (other in a.blobs <==> other in b.blobs) && (other in a.blobs ==> a.blobs[other] == b.blobs[other])
      && (other in a.partials <==> other in b.partials)
      && (other in a.partials ==> a.partials[other] == b.partials[other])
      && (other in a.metas <==> other in b.metas) && (other in a.metas ==> a.metas[other] == b.metas[other])
  }

  /** What the disk holds for a key. */
  ghost predicate HasFiles(disk: Disk, key: Key, blob: Option<File>, partial: Option<File>, meta: Option<Meta>) {
    && blob == (if key in disk.blobs then Some(disk.blobs[key]) else None)
    && partial == (if key in disk.partials then Some(disk.partials[key]) else None)
    && meta == (if key in disk.metas then Some(disk.metas[key]) else None)
  }

  /** Every outcome of one download, by the files of its key. The request resumes behind the partial file, unless a
      sidecar says that it belongs to another address, size or digest: then that file is dropped. An over-long partial
      file, no answer, or an answer in full to a resumed request leaves what was there. A body of the wrong total size
      stays as the partial file; with the right size and the wrong digest everything is deleted; with both right it
      becomes the blob. No other key's files change. */
  lemma DownloadOutcomes(disk: Disk, e: Entry, offer: Offer, hash: Hash,
                         blob: Option<File>, partial: Option<File>, meta: Option<Meta>)
    requires HasFiles(disk, e.key, blob, partial, meta) && !offer.Local?
    requires blob.None? || |blob.value| != e.size
    ensures var after := DiskAfter(disk, e, offer, false, hash);
            var mine := Meta(e.url, e.size, e.digest);
            var kept := if meta.None? || meta.value == mine then partial else None;
            var front := if kept.Some? then kept.value else [];
            && SameBut(disk, after, e.key)
            && if |front| > e.size || offer.Unreachable? || (front != [] && !offer.isRange) then
                 HasFiles(after, e.key, blob, kept, Some(mine)) && !Installed(disk, e, offer, false, hash)
               else
                 var content := front + offer.body;
                 if |content| != e.size then
                   HasFiles(after, e.key, blob, Some(content), Some(mine)) && !Installed(disk, e, offer, false, hash)
                 else if hash(content) != e.digest then
                   HasFiles(after, e.key, blob, None, None) && !Installed(disk, e, offer, false, hash)
                 else
                   HasFiles(after, e.key, Some(content), None, None) && Installed(disk, e, offer, false, hash)
  {
    hide SameBut;
    OthersUntouched(disk, e, offer, false, hash);
  }

  lemma OthersUntouched(disk: Disk, e: Entry, offer: Offer, verifyOnly: bool, hash: Hash)
    ensures SameBut(disk, DiskAfter(disk, e, offer, verifyOnly, hash), e.key)
  {
  }

  /** The outcomes without a download: a blob of the right size is kept and judged by its digest; verifying changes
      nothing; an imported file of the right size and digest replaces the blob and drops the partial file, and any
      other is refused. */
  lemma OtherOutcomes(disk: Disk, e: Entry, offer: Offer, verifyOnly: bool, hash: Hash,
                      blob: Option<File>, partial: Option<File>, meta: Option<Meta>)
    requires HasFiles(disk, e.key, blob, partial, meta)
    requires verifyOnly || offer.Local? || (blob.Some? && |blob.value| == e.size)
    ensures var after := DiskAfter(disk, e, offer, verifyOnly, hash);
            && SameBut(disk, after, e.key)
            && if blob.Some? && |blob.value| == e.size then
                 after == disk && (Installed(disk, e, offer, verifyOnly, hash) <==> hash(blob.value) == e.digest)
               else if !verifyOnly && offer.found.Some? && |offer.found.value| == e.size
                       && hash(offer.found.value) == e.digest then
                 HasFiles(after, e.key, offer.found, None, meta) && Installed(disk, e, offer, verifyOnly, hash)
               else
                 after == disk && !Installed(disk, e, offer, verifyOnly, hash)
  {
  }

  /** A kept partial file that is longer than the entry. */
  predicate Overlong(disk: Disk, e: Entry) { |Kept(disk, e)| > e.size }

  /** An over-long partial file blocks its entry for good: whatever the network answers, however often, every
      install fails and leaves the partial file as it is. */
  lemma {:induction false} OverlongIsFinal(
      disk: Disk, e: Entry, offers: seq<Offer>, hash: Hash, failures: nat)
    requires !RightSize(disk, e) && Overlong(disk, e)
    requires forall i | 0 <= i < |offers| :: !offers[i].Local?
    ensures var r := Run(disk, seq(|offers|, _ => e), offers, false, hash, failures);
            r.1 == failures + |offers| && !RightSize(r.0, e) && Kept(r.0, e) == Kept(disk, e)
    decreases |offers|
  {
    var entries := seq(|offers|, _ => e);
    if offers == [] {
    } else {
      var after := DiskAfter(disk, e, offers[0], false, hash);
      OverlongStep(disk, e, offers[0], hash);
      OverlongIsFinal(after, e, offers[1..], hash, failures + 1);
      assert entries[1..] == seq(|offers[1..]|, _ => e);
    }
  }

  lemma OverlongStep(disk: Disk, e: Entry, offer: Offer, hash: Hash)
    requires !RightSize(disk, e) && Overlong(disk, e) && !offer.Local?
    ensures var after := DiskAfter(disk, e, offer, false, hash);
            !Installed(disk, e, offer, false, hash) && !RightSize(after, e) && Kept(after, e) == Kept(disk, e)
  {
  }

  /** One body that is too long makes the partial file over-long, and any other wrong size leaves a partial file
      that the next download resumes from. */
  lemma WrongSizeStays(disk: Disk, e: Entry, offer: Offer, hash: Hash)
    requires Downloads(disk, e, offer, false) && Received(disk, e, offer).Some?
    requires |Received(disk, e, offer).value| != e.size
    ensures var after := DiskAfter(disk, e, offer, false, hash);
            Kept(after, e) == Received(disk, e, offer).value
            && (Overlong(after, e) <==> |Received(disk, e, offer).value| > e.size)
  {
  }

  /** The answer of an honest server to the request made from this disk: what is left of the content, with the
      status of a range when one was asked for. A range that starts at the end cannot be satisfied (section 15.5.17
      of RFC 9110). */
  function Honest(disk: Disk, e: Entry, content: File): Offer {
    var offset := |Kept(disk, e)|;
    if offset == 0 then Answer(false, content)
    else if offset < |content| then Answer(true, content[offset..])
    else Unreachable
  }

  /** A complete partial file, as a crash between the last byte and the move leaves it, blocks its entry: an honest
      server has no range to send. */
  lemma FullPartialBlocks(disk: Disk, e: Entry, content: File, hash: Hash)
    requires !RightSize(disk, e) && |Kept(disk, e)| == |content| == e.size > 0
    ensures var after := DiskAfter(disk, e, Honest(disk, e, content), false, hash);
            !Installed(disk, e, Honest(disk, e, content), false, hash)
            && !RightSize(after, e) && Kept(after, e) == Kept(disk, e)
  {
  }

  /** The crash exists: the disk midway through a download that is about to succeed holds such a file. */
  lemma CrashLeavesFullPartial(disk: Disk, e: Entry, content: File, hash: Hash)
    requires !RightSize(disk, e) && Kept(disk, e) == [] && Matches(e, content, hash) && e.size > 0
    ensures Installed(disk, e, Honest(disk, e, content), false, hash)
    ensures var crashed := Midway(disk, e, Honest(disk, e, content));
            !RightSize(crashed, e) && Kept(crashed, e) == content
            && !Installed(crashed, e, Honest(crashed, e, content), false, hash)
  {
    assert [] + content == content;
    FullPartialBlocks(Midway(disk, e, Honest(disk, e, content)), e, content, hash);
  }

  /** What an entry's first install needs of the disk: no corrupt blob of the right size, and, if the blob is to be
      downloaded, a partial file that is absent, or shorter than the content and completed by the rest of it. */
  predicate Usable(disk: Disk, e: Entry, content: File, hash: Hash) {
    if RightSize(disk, e) then Verify(disk, e, hash) == Ok(true)
    else
      var kept := Kept(disk, e);
      kept == [] || (|kept| < e.size && hash(kept + content[Min(|kept|, |content|)..]) == e.digest)
  }

  lemma UsableExactly(disk: Disk, e: Entry, content: File, hash: Hash)
    requires Matches(e, content, hash)
    ensures Installed(disk, e, Honest(disk, e, content), false, hash) <==> Usable(disk, e, content, hash)
  {
    assert [] + content == content;
    var kept := Kept(disk, e);
    if |kept| < |content| { assert |kept + content[|kept|..]| == |content|; }
  }

  /** A run against an honest server, which answers each request from the disk as it stands then. */
  function HonestOffers(disk: Disk, entries: seq<Entry>, contents: map<Key, File>, hash: Hash): (offers: seq<Offer>)
    requires forall i | 0 <= i < |entries| :: entries[i].key in contents
    ensures |offers| == |entries|
    decreases |entries|
  {
    if entries == [] then [] else
      var offer := Honest(disk, entries[0], contents[entries[0].key]);
      [offer] + HonestOffers(DiskAfter(disk, entries[0], offer, false, hash), entries[1..], contents, hash)
  }

  ghost predicate FirstOf(entries: seq<Entry>, i: nat) {
    i < |entries| && forall j | 0 <= j < i :: entries[j].key != entries[i].key
  }

  /** An install leaves the files of every other key alone. */
  lemma OthersKeepFiles(disk: Disk, e: Entry, offer: Offer, hash: Hash, other: Entry)
    requires other.key != e.key
    ensures var after := DiskAfter(disk, e, offer, false, hash);
            Verify(after, other, hash) == Verify(disk, other, hash) && Kept(after, other) == Kept(disk, other)
            && (RightSize(after, other) <==> RightSize(disk, other))
  {
  }

  /** The entries are usable as the run meets them. */
  ghost predicate AllUsable(disk: Disk, entries: seq<Entry>, contents: map<Key, File>, hash: Hash)
    requires forall i | 0 <= i < |entries| :: entries[i].key in contents
  {
    forall i: nat | FirstOf(entries, i) :: Usable(disk, entries[i], contents[entries[i].key], hash)
  }

  /** Against an honest server a run is clean if and only if, before it, the first entry of every key is usable: no
      stored blob corrupt, and no partial file over-long, complete, or of other bytes. */
  lemma {:induction false} HonestRunIsClean(
      disk: Disk, entries: seq<Entry>, contents: map<Key, File>, hash: Hash, failures: nat)
    requires BlobsAgree(entries)
    requires forall i | 0 <= i < |entries| ::
               entries[i].key in contents && Matches(entries[i], contents[entries[i].key], hash)
    ensures Run(disk, entries, HonestOffers(disk, entries, contents, hash), false, hash, failures).1 == failures
            <==> AllUsable(disk, entries, contents, hash)
    decreases |entries|
  {
    hide DiskAfter, Installed, Usable, Honest, Verify, Kept, RightSize;
    if entries == [] {
    } else {
      var e, rest := entries[0], entries[1..];
      var content := contents[e.key];
      var offer := Honest(disk, e, content);
      var offers := HonestOffers(disk, entries, contents, hash);
      var after := DiskAfter(disk, e, offer, false, hash);
      assert offers[0] == offer && offers[1..] == HonestOffers(after, rest, contents, hash);
      assert forall i | 0 <= i < |rest| :: rest[i] == entries[i + 1];
      UsableExactly(disk, e, content, hash);
      assert FirstOf(entries, 0);
      if !Usable(disk, e, content, hash) {
        FailuresGrow(after, rest, offers[1..], false, hash, failures + 1);
      } else {
        HonestRunIsClean(after, rest, contents, hash, failures);
        UsableLater(disk, entries, contents, hash);
      }
    }
  }

  /** Behind a clean first entry, the others are usable as they were. */
  lemma UsableLater(disk: Disk, entries: seq<Entry>, contents: map<Key, File>, hash: Hash)
    requires BlobsAgree(entries) && entries != []
    requires forall i | 0 <= i < |entries| ::
               entries[i].key in contents && Matches(entries[i], contents[entries[i].key], hash)
    requires Usable(disk, entries[0], contents[entries[0].key], hash)
    ensures var after := DiskAfter(disk, entries[0], Honest(disk, entries[0], contents[entries[0].key]), false, hash);
            AllUsable(after, entries[1..], contents, hash) <==> AllUsable(disk, entries, contents, hash)
  {
    hide DiskAfter, Installed, Honest, Kept;
    var e, rest := entries[0], entries[1..];
    var offer := Honest(disk, e, contents[e.key]);
    var after := DiskAfter(disk, e, offer, false, hash);
    UsableExactly(disk, e, contents[e.key], hash);
    InstalledIsRight(disk, e, offer, hash);
    forall i: nat | i < |rest|
      ensures rest[i] == entries[i + 1]
      ensures rest[i].key == e.key ==> Usable(after, rest[i], contents[rest[i].key], hash)
      ensures rest[i].key != e.key ==>
                (FirstOf(rest, i) <==> FirstOf(entries, i + 1))
                && (Usable(after, rest[i], contents[rest[i].key], hash)
                    <==> Usable(disk, rest[i], contents[rest[i].key], hash))
    {
      if rest[i].key == e.key {
        assert entries[0].key == entries[i + 1].key;
      } else {
        OthersKeepFiles(disk, e, offer, hash, rest[i]);
        FirstShifts(entries, i);
      }
    }
    if AllUsable(after, rest, contents, hash) {
      forall i: nat | FirstOf(entries, i) ensures Usable(disk, entries[i], contents[entries[i].key], hash) {
        if i > 0 { assert rest[i - 1] == entries[i] && entries[i].key != e.key; }
      }
    }
    if AllUsable(disk, entries, contents, hash) {
      forall i: nat | FirstOf(rest, i) ensures Usable(after, rest[i], contents[rest[i].key], hash) {
        assert rest[i].key != e.key ==> FirstOf(entries, i + 1);
      }
    }
  }

  lemma FirstShifts(entries: seq<Entry>, i: nat)
    requires i + 1 < |entries| && entries[i + 1].key != entries[0].key
    ensures FirstOf(entries[1..], i) <==> FirstOf(entries, i + 1)
  {
    var rest := entries[1..];
    if FirstOf(rest, i) {
      forall j | 0 <= j < i + 1 ensures entries[j].key != entries[i + 1].key {
        if j > 0 { assert entries[j] == rest[j - 1]; }
      }
    }
    if FirstOf(entries, i + 1) {
      forall j | 0 <= j < i ensures rest[j].key != rest[i].key {
        assert rest[j] == entries[j + 1];
      }
    }
  }

  lemma InstalledIsRight(disk: Disk, e: Entry, offer: Offer, hash: Hash)
    ensures Installed(disk, e, offer, false, hash) ==>
              Verify(DiskAfter(disk, e, offer, false, hash), e, hash) == Ok(true)
  {
    BlobsAfter(disk, e, offer, false, hash);
  }
}
