/** Whole runs of the content-addressed store: saves, lookups, quota runs and clears in any order. */
module StoreRuns {
  import opened Wrappers
  import opened ByteStrings
  import opened Ascii
  import opened Chunking
  import opened ChunkIndex
  import opened Cas
  import Quota

  datatype Op =
    | PutChunk(hash: string, data: Bytes)
    | Save(m: Manifest)
    | Enforce(files: seq<Quota.File>, maxBytes: nat, removable: Quota.Path -> bool)
    | Wipe
    | Find(chunk: string)

  datatype Disk = Disk(chunks: map<string, Bytes>, manifests: map<string, Manifest>)

  function After(d: Disk, op: Op): Disk {
    match op
    case PutChunk(hash, data) =>
      if IsHash(hash) && Lower(hash) !in d.chunks then d.(chunks := d.chunks[Lower(hash) := data]) else d
    case Save(m) =>
      if IsHash(m.blobHash) && Valid(m) then d.(manifests := d.manifests[m.blobHash := m]) else d
    case Enforce(files, maxBytes, removable) =>
      var removed := Quota.Evicted(Quota.SortedByAge(files), Quota.Total(files), maxBytes, removable);
      Disk(d.chunks - RemovedChunks(removed), d.manifests - RemovedManifests(removed))
    case Wipe => Disk(map[], map[])
    case Find(_) => d
  }

  /** The disk after a history that starts with an empty store. */
  function DiskAfter(ops: seq<Op>): Disk {
    if ops == [] then Disk(map[], map[]) else After(DiskAfter(ops[..|ops| - 1]), ops[|ops| - 1])
  }

  /** Every quota run lists files that exist when it runs. */
  ghost predicate WalksAreTrue(ops: seq<Op>) {
    forall i :: 0 <= i < |ops| && ops[i].Enforce? ==>
      WalkOf(DiskAfter(ops[..i]).chunks, DiskAfter(ops[..i]).manifests, ops[i].files)
  }

  /** A blob has one manifest: manifests are a function of the blob's content. */
  ghost predicate OneManifestPerBlob(ops: seq<Op>) {
    forall i, j :: 0 <= i < j < |ops| && ops[i].Save? && ops[j].Save? && ops[i].m.blobHash == ops[j].m.blobHash ==>
      ops[i].m == ops[j].m
  }

  /** Every manifest on disk was saved, under its own blob hash. */
  lemma {:induction false} OnlySaved(ops: seq<Op>, n: string) returns (i: nat)
    requires n in DiskAfter(ops).manifests
    ensures i < |ops| && ops[i] == Save(DiskAfter(ops).manifests[n]) && ops[i].m.blobHash == n
  {
    var op := ops[|ops| - 1];
    if op.Save? && op.m.blobHash == n && IsHash(n) && Valid(op.m) {
      i := |ops| - 1;
    } else {
      i := OnlySaved(ops[..|ops| - 1], n);
    }
  }

  /** A manifest stays on disk until a quota run removes its file or the store is cleared. */
  lemma {:induction false} SavedStays(ops: seq<Op>, i: nat)
    requires i < |ops| && ops[i].Save? && IsHash(ops[i].m.blobHash) && Valid(ops[i].m) && OneManifestPerBlob(ops)
    requires forall j :: i < j < |ops| ==> !ops[j].Enforce? && !ops[j].Wipe?
    ensures ops[i].m.blobHash in DiskAfter(ops).manifests
    ensures DiskAfter(ops).manifests[ops[i].m.blobHash] == ops[i].m
  {
    if i < |ops| - 1 {
      SavedStays(ops[..|ops| - 1], i);
    }
  }

  /** Saving the only manifest of its blob loses no occurrence. */
  lemma SaveLosesNothing(ops: seq<Op>, i: nat)
    requires OneManifestPerBlob(ops) && i < |ops| && ops[i].Save?
    ensures var (files, m) := (DiskAfter(ops[..i]).manifests, ops[i].m);
      m.blobHash in files ==> files[m.blobHash] == m
  {
    var n := ops[i].m.blobHash;
    if n in DiskAfter(ops[..i]).manifests {
      var j := OnlySaved(ops[..i], n);
      assert ops[..i][j] == ops[j];
    }
  }

  /** A lookup after `ops` answers with a surviving saved manifest that lists the chunk, if there is one. */
  ghost predicate Answers(ops: seq<Op>, chunk: string, r: Option<Manifest>) {
    var files := DiskAfter(ops).manifests;
    && (r.Some? <==> exists n :: n in files && Lists(files[n], chunk))
    && (r.Some? ==> r.value.blobHash in files && r.value == files[r.value.blobHash] && Lists(r.value, chunk))
  }

  ghost predicate Sound(store: ChunkStore)
    reads store, store.mmapCache, store.manifestCache
  {
    store.ChunksValid() && store.ManifestsValid() && store.IndexAgrees()
  }

  ghost function DiskOf(store: ChunkStore): Disk
    reads store
  {
    Disk(store.chunkFiles, store.manifestFiles)
  }

  /** The store holds what the history left, and its invariants hold. */
  ghost predicate Reached(store: ChunkStore, ops: seq<Op>)
    reads store, store.mmapCache, store.manifestCache
  {
    Sound(store) && DiskOf(store) == DiskAfter(ops)
  }

  method PutOne(store: ChunkStore, hash: string, data: Bytes)
    requires Sound(store)
    modifies store
    ensures Sound(store) && DiskOf(store) == After(old(DiskOf(store)), PutChunk(hash, data))
  {
    hide Pairs, DiskPairs, Valid;
    var _ := store.PutTrusted(hash, data);
  }

  method SaveOne(store: ChunkStore, m: Manifest)
    requires Sound(store) && (m.blobHash in store.manifestFiles ==> store.manifestFiles[m.blobHash] == m)
    modifies store, store.manifestCache
    ensures Sound(store) && DiskOf(store) == After(old(DiskOf(store)), Save(m))
  {
    hide Pairs, DiskPairs, Valid, ManifestPairs;
    var _ := store.SaveManifest(m);
  }

  method FindOne(store: ChunkStore, chunk: string) returns (answer: Option<Manifest>)
    requires Sound(store)
    modifies store, store.manifestCache
    ensures Sound(store) && DiskOf(store) == old(DiskOf(store))
    ensures var files := store.manifestFiles;
      && (answer.Some? <==> exists n :: n in files && Lists(files[n], chunk))
      && (answer.Some? ==>
            && answer.value.blobHash in files && answer.value == files[answer.value.blobHash]
            && Lists(answer.value, chunk))
  {
    hide Pairs, DiskPairs, Valid, Lists;
    answer := store.FindManifestContainingChunk(chunk);
  }

  method EnforceOne(store: ChunkStore, files: seq<Quota.File>, maxBytes: nat, removable: Quota.Path -> bool)
    requires Sound(store) && WalkOf(store.chunkFiles, store.manifestFiles, files)
    modifies store
    ensures Sound(store) && DiskOf(store) == After(old(DiskOf(store)), Enforce(files, maxBytes, removable))
  {
    hide Pairs, DiskPairs, Valid, Quota.Evicted, Quota.SortedByAge, Quota.Total, Quota.DistinctPaths, WalkOf;
    hide RemovedChunks, RemovedManifests, Surviving;
    var _ := store.EnforceCacheQuota(files, maxBytes, removable);
  }

  method WipeOne(store: ChunkStore)
    requires Sound(store)
    modifies store, store.manifestCache
    ensures Sound(store) && DiskOf(store) == After(old(DiskOf(store)), Wipe)
  {
    store.Clear();
  }

  lemma OneMore(ops: seq<Op>, i: nat)
    requires i < |ops| && WalksAreTrue(ops)
    ensures DiskAfter(ops[..i + 1]) == After(DiskAfter(ops[..i]), ops[i])
    ensures ops[i].Enforce? ==> WalkOf(DiskAfter(ops[..i]).chunks, DiskAfter(ops[..i]).manifests, ops[i].files)
  {
    assert ops[..i + 1][..i] == ops[..i];
  }

  method Perform(store: ChunkStore, ops: seq<Op>, i: nat) returns (answer: Option<Manifest>)
    requires i < |ops| && WalksAreTrue(ops) && OneManifestPerBlob(ops) && Reached(store, ops[..i])
    modifies store, store.mmapCache, store.manifestCache
    ensures Reached(store, ops[..i + 1])
    ensures ops[i].Find? ==> Answers(ops[..i], ops[i].chunk, answer)
  {
    OneMore(ops, i);
    hide Valid, Quota.Evicted, Quota.SortedByAge, Quota.Total, DiskAfter, WalksAreTrue, WalkOf, Sound;
    hide RemovedChunks, RemovedManifests, Lists;
    answer := None;
    match ops[i] {
      case PutChunk(hash, data) =>
        PutOne(store, hash, data);
      case Save(m) =>
        SaveLosesNothing(ops, i);
        SaveOne(store, m);
      case Enforce(files, maxBytes, removable) =>
        EnforceOne(store, files, maxBytes, removable);
      case Wipe =>
        WipeOne(store);
      case Find(chunk) =>
        answer := FindOne(store, chunk);
    }
  }

  /**
   * After any history the incremental index, if there is one, holds what a rebuild from the
   * surviving manifests would; and every lookup on the way found a manifest exactly when a
   * surviving saved one listed the chunk.
   */
  method Replay(H: Bytes -> string, ops: seq<Op>) returns (store: ChunkStore, answers: seq<Option<Manifest>>)
    requires HexDigest(H) && WalksAreTrue(ops) && OneManifestPerBlob(ops)
    ensures Reached(store, ops)
    ensures store.index.Some? ==> Pairs(store.index.value) == DiskPairs(DiskAfter(ops).manifests)
    ensures |answers| == |ops|
    ensures forall i :: 0 <= i < |ops| && ops[i].Find? ==> Answers(ops[..i], ops[i].chunk, answers[i])
  {
    hide Answers, WalksAreTrue, OneManifestPerBlob, Pairs, DiskPairs, Sound, DiskAfter;
    store := new ChunkStore(H);
    IsNew(store, ops);
    answers := [];
    var i := 0;
    while i < |ops|
      invariant 0 <= i <= |ops| && |answers| == i
      invariant fresh(store) && fresh(store.mmapCache) && fresh(store.manifestCache)
      invariant Reached(store, ops[..i])
      invariant forall j :: 0 <= j < i && ops[j].Find? ==> Answers(ops[..j], ops[j].chunk, answers[j])
    {
      var answer := Perform(store, ops, i);
      answers := answers + [answer];
      i := i + 1;
    }
    assert ops[..i] == ops;
    IndexIsRebuild(store, ops);
  }

  lemma IsNew(store: ChunkStore, ops: seq<Op>)
    requires store.ChunksValid() && store.ManifestsValid() && store.IndexAgrees()
    requires store.chunkFiles == map[] && store.manifestFiles == map[]
    ensures Reached(store, ops[..0])
  {
  }

  lemma IndexIsRebuild(store: ChunkStore, ops: seq<Op>)
    requires Reached(store, ops)
    ensures store.index.Some? ==> Pairs(store.index.value) == DiskPairs(DiskAfter(ops).manifests)
  {
  }
}
