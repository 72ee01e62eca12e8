/**
 * The content-addressed store of media-core/src/cas.rs.  The disk is two maps: chunk files by
 * lower-case hash, and manifest files by blob hash.  Both in-memory caches are `FifoCache`s.
 */
module Cas {
  import opened Wrappers
  import opened ByteStrings
  import opened Ascii
  import opened Chunking
  import opened Slicing
  import opened ChunkIndex
  import EpochCache
  import Lru
  import Quota

  /** No other byte string has the hash of one of the pieces. */
  ghost predicate NoCollision(H: Bytes -> string, pieces: seq<Bytes>) {
    forall d, p :: p in pieces && H(d) == H(p) ==> d == p
  }

  ghost predicate Lists(m: Manifest, chunk: string) {
    exists c :: c in m.chunks && c.blake3 == chunk
  }

  /** A walk of the store yields files that exist; manifest files are not empty. */
  ghost predicate WalkOf(chunkFiles: map<string, Bytes>, manifestFiles: map<string, Manifest>, files: seq<Quota.File>) {
    forall f :: f in files ==>
      match f.path
      case ChunkFile(h) => h in chunkFiles && f.size == |chunkFiles[h]|
      case ManifestFile(n) => n in manifestFiles && f.size > 0
  }

  function RemovedChunks(removed: seq<Quota.File>): set<string> {
    set f | f in removed && f.path.ChunkFile? :: f.path.hash
  }

  function RemovedManifests(removed: seq<Quota.File>): set<string> {
    set f | f in removed && f.path.ManifestFile? :: f.path.blobHash
  }

  ghost predicate Exists(chunks: map<string, Bytes>, manifests: map<string, Manifest>, p: Quota.Path) {
    match p
    case ChunkFile(h) => h in chunks
    case ManifestFile(n) => n in manifests
  }

  lemma ExactlyTheseGo(chunks: map<string, Bytes>, manifests: map<string, Manifest>, removed: seq<Quota.File>)
    ensures forall p :: Exists(chunks - RemovedChunks(removed), manifests - RemovedManifests(removed), p)
                   <==> Exists(chunks, manifests, p) && !exists f :: f in removed && f.path == p
  {
    forall p ensures Exists(chunks - RemovedChunks(removed), manifests - RemovedManifests(removed), p)
                <==> Exists(chunks, manifests, p) && !exists f :: f in removed && f.path == p
    {
      match p
      case ChunkFile(h) => assert h in RemovedChunks(removed) <==> exists f :: f in removed && f.path == p;
      case ManifestFile(n) => assert n in RemovedManifests(removed) <==> exists f :: f in removed && f.path == p;
    }
  }

  lemma NamedFilesGo(chunks: map<string, Bytes>, manifests: map<string, Manifest>, removed: seq<Quota.File>)
    ensures forall h :: h in chunks - RemovedChunks(removed) <==>
              h in chunks && !exists f :: f in removed && f.path == Quota.ChunkFile(h)
    ensures forall n :: n in manifests - RemovedManifests(removed) <==>
              n in manifests && !exists f :: f in removed && f.path == Quota.ManifestFile(n)
  {
    forall h ensures h in RemovedChunks(removed) <==> exists f :: f in removed && f.path == Quota.ChunkFile(h) {
    }
    forall n ensures n in RemovedManifests(removed) <==> exists f :: f in removed && f.path == Quota.ManifestFile(n) {
    }
  }

  /** Those of the files that are still on disk. */
  ghost function Surviving(chunks: map<string, Bytes>, manifests: map<string, Manifest>, files: seq<Quota.File>)
    : seq<Quota.File>
  {
    if files == [] then []
    else
      var rest := Surviving(chunks, manifests, files[1..]);
      if Exists(chunks, manifests, files[0].path) then [files[0]] + rest else rest
  }

  lemma {:induction false} SurvivingIsOutside(chunks: map<string, Bytes>, manifests: map<string, Manifest>,
                                              files: seq<Quota.File>, gone: set<Quota.Path>)
    requires forall f :: f in files ==> (Exists(chunks, manifests, f.path) <==> f.path !in gone)
    ensures Surviving(chunks, manifests, files) == Quota.Outside(files, gone)
  {
    if files != [] {
      assert files[0] in files;
      SurvivingIsOutside(chunks, manifests, files[1..], gone);
    }
  }

  lemma LeftIsBalance(chunks: map<string, Bytes>, manifests: map<string, Manifest>, files: seq<Quota.File>,
                      maxBytes: nat, removable: Quota.Path -> bool)
    requires WalkOf(chunks, manifests, files) && Quota.DistinctPaths(files)
    ensures
      var removed := Quota.Evicted(Quota.SortedByAge(files), Quota.Total(files), maxBytes, removable);
      var left := Surviving(chunks - RemovedChunks(removed), manifests - RemovedManifests(removed), files);
      && Quota.Total(removed) + Quota.Total(left) == Quota.Total(files)
      && ((forall p :: removable(p)) ==> Quota.Total(left) <= maxBytes)
  {
    hide Quota.Evicted, Quota.SortedByAge, Quota.Total, Quota.DistinctPaths, RemovedChunks, RemovedManifests;
    var removed := Quota.Evicted(Quota.SortedByAge(files), Quota.Total(files), maxBytes, removable);
    var chunks', manifests' := chunks - RemovedChunks(removed), manifests - RemovedManifests(removed);
    ExactlyTheseGo(chunks, manifests, removed);
    Quota.NothingIsLost(Quota.SortedByAge(files), Quota.Total(files), maxBytes, removable);
    Quota.BytesBalance(files, removed);
    forall f | f in files ensures Exists(chunks', manifests', f.path) <==> f.path !in Quota.Paths(removed) {
      assert Exists(chunks, manifests, f.path);
    }
    SurvivingIsOutside(chunks', manifests', files, Quota.Paths(removed));
    if forall p :: removable(p) {
      var k := Quota.ShortestPrefixGoes(files, maxBytes, removable);
    }
  }

  class ChunkStore {
    const H: Bytes -> string
    var chunkFiles: map<string, Bytes>
    var manifestFiles: map<string, Manifest>
    var index: Option<Index>
    const mmapCache: EpochCache.FifoCache<Bytes>
    const manifestCache: EpochCache.FifoCache<Manifest>

    constructor (H: Bytes -> string)
      requires HexDigest(H)
      ensures this.H == H && ChunksValid() && ManifestsValid() && IndexAgrees()
      ensures fresh(mmapCache) && fresh(manifestCache)
      ensures chunkFiles == map[] && manifestFiles == map[] && index == None && CacheOnDisk()
      ensures mmapCache.capacity == 64 && manifestCache.capacity == 64
      ensures mmapCache.entries == [] && manifestCache.entries == []
    {
      this.H, chunkFiles, manifestFiles, index := H, map[], map[], None;
      mmapCache := new EpochCache.FifoCache<Bytes>(64);
      manifestCache := new EpochCache.FifoCache<Manifest>(64);
    }

    // -------------------------------------------------------------------------------------------
    // Chunks
    // -------------------------------------------------------------------------------------------

    /** Cached mappings were verified when they were made. */
    ghost predicate ChunksValid()
      reads this, mmapCache
    {
      && HexDigest(H)
      && (mmapCache as object) != manifestCache
      && mmapCache.Valid()
      && forall k :: Lru.Lookup(mmapCache.entries, k).Some? ==> Authentic(k, Lru.Lookup(mmapCache.entries, k).value)
    }

    /** Non-empty bytes whose hash is `hash`, ignoring case. */
    ghost predicate Authentic(hash: string, data: Bytes)
    {
      H(data) == Lower(hash) && data != []
    }

    /** What mapping the chunk file yields: its bytes if they are there, not empty, and hash right. */
    function Mapped(hash: string): Option<Bytes>
      reads this
    {
      if IsHash(hash) && Lower(hash) in chunkFiles && chunkFiles[Lower(hash)] != []
         && SameIgnoringCase(H(chunkFiles[Lower(hash)]), hash)
      then Some(chunkFiles[Lower(hash)]) else None
    }

    /** The chunk can be had, from the cache or from disk. */
    ghost predicate Available(hash: string)
      reads this, mmapCache
    {
      Lru.Lookup(mmapCache.entries, hash).Some? || Mapped(hash).Some?
    }

    /**
     * Every cached mapping could be made again from disk.  Quota runs and clears break this: they
     * leave mappings of files that are gone.
     */
    ghost predicate CacheOnDisk()
      reads this, mmapCache
    {
      forall k :: Lru.Lookup(mmapCache.entries, k).Some? ==> Mapped(k).Some?
    }

    /** `put_trusted`: writes the chunk unless a file of that name exists. */
    method PutTrusted(hash: string, data: Bytes) returns (written: bool)
      modifies this`chunkFiles
      ensures written <==> IsHash(hash) && Lower(hash) !in old(chunkFiles)
      ensures chunkFiles == if written then old(chunkFiles)[Lower(hash) := data] else old(chunkFiles)
      ensures old(ChunksValid()) ==> ChunksValid()
      ensures old(CacheOnDisk()) ==> CacheOnDisk()
    {
      if !IsHash(hash) {
        return false;
      }
      if Lower(hash) in chunkFiles {
        return false;
      }
      chunkFiles := chunkFiles[Lower(hash) := data];
      return true;
    }

    method GetMmapCached(hash: string) returns (r: Option<Bytes>)
      requires ChunksValid()
      modifies mmapCache
      ensures ChunksValid()
      ensures r.Some? ==> Authentic(hash, r.value)
      ensures r.Some? <==> |hash| == 64 && old(Available(hash))
      ensures forall k :: Available(k) ==> old(Available(k))
    {
      if |hash| != 64 {
        return None;
      }
      ghost var before := mmapCache.entries;
      r := mmapCache.Get(hash);
      CacheStaysAuthentic(before, Lru.Get(hash));
      CacheStaysAvailable(before, Lru.Get(hash));
      if r.Some? {
        return;
      }
      r := Mapped(hash);
      if r.Some? {
        mmapCache.Put(hash, r.value);
        assert Lru.Touched(before, hash) == before;
        CacheStaysAuthentic(before, Lru.Insert(hash, r.value));
        CacheStaysAvailable(before, Lru.Insert(hash, r.value));
      }
    }

    /** An operation on the cache makes no key available but the one inserted. */
    lemma CacheStaysAvailable(before: Lru.Cache<Bytes>, op: Lru.Op<Bytes>)
      requires mmapCache.Valid() && Lru.Distinct(Lru.Keys(before))
      requires mmapCache.entries == Lru.Apply(before, mmapCache.capacity, op)
      ensures forall k :: Lru.Lookup(mmapCache.entries, k).Some? ==>
                Lru.Lookup(before, k).Some? || (op.Insert? && op.key == k)
    {
      forall k | Lru.Lookup(mmapCache.entries, k).Some?
        ensures Lru.Lookup(before, k).Some? || (op.Insert? && op.key == k)
      {
        Lru.LookupAfter(before, mmapCache.capacity, op, k);
      }
    }

    /** A cache of verified mappings stays one when a verified mapping is used or added. */
    lemma CacheStaysAuthentic(before: Lru.Cache<Bytes>, op: Lru.Op<Bytes>)
      requires mmapCache.Valid() && Lru.Distinct(Lru.Keys(before))
      requires mmapCache.entries == Lru.Apply(before, mmapCache.capacity, op)
      requires forall k :: Lru.Lookup(before, k).Some? ==> Authentic(k, Lru.Lookup(before, k).value)
      requires op.Insert? ==> Authentic(op.key, op.value)
      ensures forall k :: Lru.Lookup(mmapCache.entries, k).Some? ==>
                Authentic(k, Lru.Lookup(mmapCache.entries, k).value)
    {
      forall k | Lru.Lookup(mmapCache.entries, k).Some?
        ensures Authentic(k, Lru.Lookup(mmapCache.entries, k).value)
      {
        Lru.LookupAfter(before, mmapCache.capacity, op, k);
      }
    }

    /** The piece is on disk under its hash, intact. */
    ghost predicate Holds(p: Bytes)
      reads this
    {
      H(p) in chunkFiles && chunkFiles[H(p)] == p
    }

    /** A file with other content has the name of the piece. */
    ghost predicate Spoiled(p: Bytes)
      reads this
    {
      H(p) in chunkFiles && chunkFiles[H(p)] != p
    }

    /** Files only appear, and each new one holds a piece under the piece's hash. */
    ghost predicate Grown(before: map<string, Bytes>, after: map<string, Bytes>, pieces: seq<Bytes>) {
      && (forall k :: k in before ==> k in after && after[k] == before[k])
      && (forall k :: k in after && k !in before ==> after[k] in pieces && H(after[k]) == k)
    }

    lemma GrownStep(before: map<string, Bytes>, mid: map<string, Bytes>, pieces: seq<Bytes>, p: Bytes)
      requires Grown(before, mid, pieces) && p in pieces
      ensures Grown(before, if H(p) in mid then mid else mid[H(p) := p], pieces)
    {
    }

    /**
     * `store_reader`, for any cut of the stream into non-empty pieces: the manifest of the pieces
     * is returned and files already there are left alone, so exactly the pieces that were not
     * spoiled before are on disk afterwards.
     */
    method StoreReader(pieces: seq<Bytes>) returns (m: Manifest)
      requires ChunksValid() && NonEmpty(pieces)
      modifies this`chunkFiles
      ensures ChunksValid()
      ensures m == ManifestOf(H, pieces)
      ensures Grown(old(chunkFiles), chunkFiles, pieces)
      ensures forall p :: p in pieces ==> H(p) in chunkFiles
      ensures NoCollision(H, pieces) ==> forall p :: p in pieces ==> (Holds(p) <==> !old(Spoiled(p)))
      ensures old(CacheOnDisk()) ==> CacheOnDisk()
    {
      hide ChunksValid, Written, Grown, CacheOnDisk, Holds, NoCollision, RefsOf, Concat, ManifestOf;
      HasHexDigest();
      ghost var before := chunkFiles;
      var refs: seq<ChunkRef> := [];
      var hashed: Bytes := [];
      var i := 0;
      NothingRead(pieces);
      while i < |pieces|
        invariant 0 <= i <= |pieces| && ChunksValid() && Written(pieces, i, refs, hashed)
        invariant Grown(before, chunkFiles, pieces) && (old(CacheOnDisk()) ==> CacheOnDisk())
        invariant forall j :: 0 <= j < i ==> H(pieces[j]) in chunkFiles
      {
        var data := pieces[i];
        WrittenStep(pieces, i, refs, hashed);
        var cref := ChunkRef(H(data), |hashed|, |data|);
        GrownStep(before, chunkFiles, pieces, data);
        var _ := PutTrusted(cref.blake3, data);
        hashed := hashed + data;
        refs := refs + [cref];
        i := i + 1;
      }
      AllRead(pieces, refs, hashed);
      var total := if refs == [] then 0 else refs[|refs| - 1].offset + refs[|refs| - 1].len;
      m := Manifest(H(hashed), total, refs);
      if NoCollision(H, pieces) {
        GrownIsStored(before, pieces);
      }
    }

    /** The manifest so far and the bytes hashed so far are those of the first `i` pieces. */
    ghost predicate Written(pieces: seq<Bytes>, i: nat, refs: seq<ChunkRef>, hashed: Bytes)
      requires i <= |pieces|
    {
      && refs + RefsOf(H, pieces[i..], |hashed|) == RefsOf(H, pieces, 0)
      && hashed + Concat(pieces[i..]) == Concat(pieces)
      && |hashed| == if refs == [] then 0 else refs[|refs| - 1].offset + refs[|refs| - 1].len
    }

    lemma NothingRead(pieces: seq<Bytes>)
      ensures Written(pieces, 0, [], [])
      ensures Grown(chunkFiles, chunkFiles, pieces)
    {
      assert pieces[0..] == pieces;
    }

    lemma WrittenStep(pieces: seq<Bytes>, i: nat, refs: seq<ChunkRef>, hashed: Bytes)
      requires i < |pieces| && Written(pieces, i, refs, hashed)
      ensures Written(pieces, i + 1, refs + [ChunkRef(H(pieces[i]), |hashed|, |pieces[i]|)], hashed + pieces[i])
    {
      var c := ChunkRef(H(pieces[i]), |hashed|, |pieces[i]|);
      assert pieces[i..][1..] == pieces[i + 1..];
      assert refs + RefsOf(H, pieces[i..], |hashed|) == (refs + [c]) + RefsOf(H, pieces[i + 1..], |hashed + pieces[i]|);
      assert hashed + Concat(pieces[i..]) == (hashed + pieces[i]) + Concat(pieces[i + 1..]);
    }

    lemma AllRead(pieces: seq<Bytes>, refs: seq<ChunkRef>, hashed: Bytes)
      requires Written(pieces, |pieces|, refs, hashed)
      ensures var total := if refs == [] then 0 else refs[|refs| - 1].offset + refs[|refs| - 1].len;
        Manifest(H(hashed), total, refs) == ManifestOf(H, pieces)
    {
      assert pieces[|pieces|..] == [];
      assert refs == RefsOf(H, pieces, 0) && hashed == Concat(pieces);
    }

    lemma GrownIsStored(before: map<string, Bytes>, pieces: seq<Bytes>)
      requires Grown(before, chunkFiles, pieces) && NoCollision(H, pieces)
      requires forall p :: p in pieces ==> H(p) in chunkFiles
      ensures forall p :: p in pieces ==> (Holds(p) <==> H(p) !in before || before[H(p)] == p)
    {
    }

    // -------------------------------------------------------------------------------------------
    // Range reads
    // -------------------------------------------------------------------------------------------

    /** The chunk's hash is that of `p`, and of nothing else. */
    ghost predicate Names(c: ChunkRef, p: Bytes) {
      H(p) == Lower(c.blake3) && forall d :: H(d) == H(p) ==> d == p
    }

    ghost predicate AllName(chunks: seq<ChunkRef>, pieces: seq<Bytes>) {
      |chunks| == |pieces| && forall i :: 0 <= i < |chunks| ==> Names(chunks[i], pieces[i])
    }

    ghost predicate AllMapped(chunks: seq<ChunkRef>, pieces: seq<Bytes>)
      reads this
    {
      |chunks| == |pieces| && forall i :: 0 <= i < |chunks| ==> Mapped(chunks[i].blake3) == Some(pieces[i])
    }

    /** Maps one chunk and resolves its window; `p` stands for the bytes the chunk should hold. */
    method ResolveOne(c: ChunkRef, offset: nat, end: nat, ghost p: Bytes) returns (r: Option<Window>)
      requires ChunksValid()
      modifies mmapCache
      ensures ChunksValid()
      ensures forall k :: Available(k) ==> old(Available(k))
      ensures r.Some? ==> InBounds(r.value) && old(Available(c.blake3))
      ensures Names(c, p) ==>
        r == if |c.blake3| == 64 && old(Available(c.blake3)) then Resolved(c, p, offset, end) else None
    {
      hide Available;
      var data := GetMmapCached(c.blake3);
      if data.None? {
        return None;
      }
      r := Resolved(c, data.value, offset, end);
    }

    /** Maps every chunk and resolves its window; nothing if one is missing. */
    method ResolveAll(over: seq<ChunkRef>, offset: nat, end: nat, ghost held: seq<Bytes>)
      returns (r: Option<seq<Window>>)
      requires ChunksValid()
      modifies mmapCache
      ensures ChunksValid()
      ensures forall k :: Available(k) ==> old(Available(k))
      ensures r.Some? ==> forall i :: 0 <= i < |r.value| ==> InBounds(r.value[i])
      ensures r.Some? ==> forall i :: 0 <= i < |over| ==> old(Available(over[i].blake3))
      ensures AllName(over, held) && AllSome(WindowsOf(over, held, offset, end)) ==>
        && (r.Some? ==> r.value == Values(WindowsOf(over, held, offset, end)))
        && (AllMapped(over, held) ==> r.Some?)
    {
      hide ChunksValid, Names, Mapped, Resolved, InBounds, Available;
      var windows: seq<Window> := [];
      var missing := false;
      ghost var named := AllName(over, held) && AllSome(WindowsOf(over, held, offset, end));
      for i := 0 to |over|
        invariant ChunksValid()
        invariant forall k :: Available(k) ==> old(Available(k))
        invariant !missing ==> |windows| == i && forall j :: 0 <= j < i ==> old(Available(over[j].blake3))
        invariant forall j :: 0 <= j < |windows| ==> InBounds(windows[j])
        invariant named && !missing ==>
                    forall j :: 0 <= j < i ==> Some(windows[j]) == Resolved(over[j], held[j], offset, end)
        invariant named && AllMapped(over, held) ==> !missing
      {
        MappedIsAvailable(over[i].blake3);
        var w := ResolveOne(over[i], offset, end, if named then held[i] else []);
        assert named ==> WindowsOf(over, held, offset, end)[i] == Resolved(over[i], held[i], offset, end);
        if w.None? {
          missing := true;
        } else {
          windows := windows + [w.value];
        }
      }
      r := if missing then None else Some(windows);
    }

    lemma MappedIsAvailable(hash: string)
      ensures Mapped(hash).Some? ==> |hash| == 64 && Available(hash)
    {
    }

    /** Every one of these chunks can be mapped from disk, or else had from the cache too. */
    ghost predicate OnDisk(chunks: seq<ChunkRef>)
      reads this
    {
      forall c :: c in chunks ==> Mapped(c.blake3).Some?
    }

    ghost predicate AllAvailable(chunks: seq<ChunkRef>)
      reads this, mmapCache
    {
      forall c :: c in chunks ==> Available(c.blake3)
    }

    lemma MappedIffHeld(c: ChunkRef, p: Bytes)
      requires HexDigest(H) && Names(c, p) && IsHash(c.blake3) && p != []
      ensures Mapped(c.blake3).Some? <==> Holds(p)
      ensures Mapped(c.blake3).Some? ==> Mapped(c.blake3) == Some(p)
    {
    }

    /** The chunks that overlap a range of a described blob name its pieces; on disk means held intact. */
    lemma OverlappingBacked(m: Manifest, pieces: seq<Bytes>, offset: nat, end: nat)
      requires HexDigest(H) && Tiles(m.chunks, 0, m.totalSize)
      requires Describes(H, m.chunks, pieces) && NoCollision(H, pieces)
      ensures var over, held := Overlapping(m.chunks, offset, end), PiecesFor(m.chunks, pieces, offset, end);
        && AllName(over, held)
        && (OnDisk(over) ==> AllMapped(over, held))
        && (OnDisk(over) <==> forall p :: p in held ==> Holds(p))
    {
      hide Mapped, Holds, Names;
      var over, held := Overlapping(m.chunks, offset, end), PiecesFor(m.chunks, pieces, offset, end);
      OverlappingDescribes(H, m.chunks, pieces, offset, end);
      TilesAreHashes(m.chunks, 0, m.totalSize);
      forall i | 0 <= i < |over|
        ensures Names(over[i], held[i])
        ensures Mapped(over[i].blake3).Some? <==> Holds(held[i])
        ensures Mapped(over[i].blake3).Some? ==> Mapped(over[i].blake3) == Some(held[i])
      {
        assert over[i] in over && held[i] in held;
        assert held[i] in pieces && over[i] in m.chunks && over[i].len == |held[i]|;
        PieceIsNamed(over[i], held[i], pieces);
        MappedIffHeld(over[i], held[i]);
      }
    }

    lemma PieceIsNamed(c: ChunkRef, p: Bytes, pieces: seq<Bytes>)
      requires NoCollision(H, pieces) && p in pieces && Lower(c.blake3) == H(p)
      ensures Names(c, p)
    {
    }

    /**
     * The manifest describes the blob cut into `pieces`, and no other bytes hash like a piece.
     * `EndsFit` is what the validator does not ensure at 2^64 - 1 bytes (`ValidIffTiles`).
     */
    ghost predicate IsManifestOf(m: Manifest, pieces: seq<Bytes>) {
      Valid(m) && EndsFit(m.chunks) && Describes(H, m.chunks, pieces) && NoCollision(H, pieces)
    }

    /**
     * `blob_slice`.  `pieces` stands for any blob the manifest might describe: whatever is
     * returned is that blob's range.  It takes that every overlapping chunk is cached or on disk,
     * and it is enough that every one is on disk; so with nothing cached but what is on disk, the
     * range is returned exactly when its chunks are there, intact.
     */
    method BlobSlice(m: Manifest, offset: nat, len: nat, ghost pieces: seq<Bytes>) returns (r: Option<Bytes>)
      requires ChunksValid()
      modifies mmapCache
      ensures ChunksValid()
      ensures forall k :: Available(k) ==> old(Available(k))
      ensures !Valid(m) || len == 0 || offset + len > m.totalSize ==> r == None
      ensures r.Some? ==> |r.value| == len
      ensures r.Some? ==> old(AllAvailable(Overlapping(m.chunks, offset, offset + len)))
      ensures IsManifestOf(m, pieces) ==> |Concat(pieces)| == m.totalSize
      ensures IsManifestOf(m, pieces) && r.Some? ==> r.value == Concat(pieces)[offset..offset + len]
      ensures IsManifestOf(m, pieces) && OnDisk(Overlapping(m.chunks, offset, offset + len)) ==>
                (r.Some? <==> len > 0 && offset + len <= m.totalSize)
    {
      hide ChunksValid, Mapped, Names, NoCollision, Joined, Valid, Concat, Resolved, Available, Tiles;
      ghost var described := IsManifestOf(m, pieces);
      ValidIffTiles(m);
      if described {
        HasHexDigest();
        RangeOfPieces(H, m, pieces, 0, 0);
      }
      var ok := IsValid(m);
      if !ok || len == 0 {
        return None;
      }
      var end := offset + len;
      if end > m.totalSize {
        return None;
      }
      var over := CollectOverlapping(m.chunks, offset, end);
      ghost var held := if described then PiecesFor(m.chunks, pieces, offset, end) else [];
      if described {
        OverlappingBacked(m, pieces, offset, end);
        RangeOfPieces(H, m, pieces, offset, end);
      }
      if over == [] {
        NoOverlapNoBytes(over, held, offset, end);
        return None;
      }
      var windows := ResolveAll(over, offset, end, held);
      if windows.None? {
        return None;
      }
      JoinedLength(windows.value);
      if TotalLen(windows.value) != len {
        return None;
      }
      var out := CopyWindows(windows.value, len);
      r := Some(out[..]);
    }

    lemma HasHexDigest()
      requires ChunksValid()
      ensures HexDigest(H)
    {
    }

    lemma NoOverlapNoBytes(over: seq<ChunkRef>, held: seq<Bytes>, offset: nat, end: nat)
      requires over == [] && |held| == |over|
      ensures AllSome(WindowsOf(over, held, offset, end)) && Joined(Values(WindowsOf(over, held, offset, end))) == []
    {
      assert Values(WindowsOf(over, held, offset, end)) == [];
    }

    /** A chunk that holds the whole range can be had. */
    ghost predicate OneAvailable(chunks: seq<ChunkRef>, offset: nat, end: nat)
      reads this, mmapCache
    {
      exists c :: c in chunks && Inside(c, offset, end) && Available(c.blake3)
    }

    /**
     * `blob_range_mapped`: the one-chunk fast path.  It answers exactly the ranges inside one
     * chunk that is cached or on disk, with the bytes that `blob_slice` would copy.
     */
    method BlobRangeMapped(m: Manifest, offset: nat, len: nat, ghost pieces: seq<Bytes>) returns (r: Option<Window>)
      requires ChunksValid()
      modifies mmapCache
      ensures ChunksValid()
      ensures forall k :: Available(k) ==> old(Available(k))
      ensures r.Some? ==> Valid(m) && len > 0 && offset + len <= m.totalSize && InBounds(r.value)
      ensures r.Some? ==> InsideOne(m.chunks, offset, offset + len)
      ensures IsManifestOf(m, pieces) && r.Some? ==>
                offset + len <= |Concat(pieces)|
                && r.value.data[r.value.from..r.value.to] == Concat(pieces)[offset..offset + len]
      ensures IsManifestOf(m, pieces) && len > 0 && offset + len <= m.totalSize ==>
                (r.Some? <==> old(OneAvailable(m.chunks, offset, offset + len)))
    {
      hide ChunksValid, Mapped, NoCollision, Valid, Concat, Tiles, Names, Authentic, Available, OneAvailable;
      var ok := IsValid(m);
      if !ok || len == 0 {
        return None;
      }
      var end := offset + len;
      if end > m.totalSize {
        return None;
      }
      var i := 0;
      while i < |m.chunks| && !(offset >= m.chunks[i].offset && end <= m.chunks[i].offset + m.chunks[i].len)
        invariant 0 <= i <= |m.chunks|
        invariant forall j :: 0 <= j < i ==> !Inside(m.chunks[j], offset, end)
      {
        i := i + 1;
      }
      if i == |m.chunks| {
        NoneInside(m.chunks, offset, end);
        return None;
      }
      var c := m.chunks[i];
      assert c in m.chunks && Inside(c, offset, end);
      ghost var described := IsManifestOf(m, pieces);
      if described {
        ValidIffTiles(m);
        RangeInsidePiece(H, m, pieces, i, offset, end);
        ChunkBacked(m, pieces, i);
        OnlyOneInside(m, i, offset, end);
      }
      var mapped := GetMmapCached(c.blake3);
      if mapped.None? {
        return None;
      }
      if described {
        MappedIsPiece(c, pieces[i], mapped.value);
      }
      var data := mapped.value;
      var to := if end - c.offset < |data| then end - c.offset else |data|;
      var from := offset - c.offset;
      if from > to {
        return None;
      }
      return Some(Window(data, from, to));
    }

    lemma NoneInside(chunks: seq<ChunkRef>, offset: nat, end: nat)
      requires forall i :: 0 <= i < |chunks| ==> !Inside(chunks[i], offset, end)
      ensures !OneAvailable(chunks, offset, end)
    {
    }

    lemma OnlyOneInside(m: Manifest, i: nat, offset: nat, end: nat)
      requires Tiles(m.chunks, 0, m.totalSize) && offset < end
      requires i < |m.chunks| && Inside(m.chunks[i], offset, end)
      ensures OneAvailable(m.chunks, offset, end) <==> Available(m.chunks[i].blake3)
    {
      if OneAvailable(m.chunks, offset, end) {
        var c :| c in m.chunks && Inside(c, offset, end) && Available(c.blake3);
        var j :| 0 <= j < |m.chunks| && m.chunks[j] == c;
        InsideIsUnique(m.chunks, 0, m.totalSize, i, j, offset, end);
      }
    }

    lemma ChunkBacked(m: Manifest, pieces: seq<Bytes>, i: nat)
      requires Tiles(m.chunks, 0, m.totalSize) && Describes(H, m.chunks, pieces) && NoCollision(H, pieces)
      requires i < |m.chunks|
      ensures Names(m.chunks[i], pieces[i]) && |m.chunks[i].blake3| == 64
    {
      TilesAreHashes(m.chunks, 0, m.totalSize);
      assert m.chunks[i] in m.chunks && pieces[i] in pieces;
    }

    lemma MappedIsPiece(c: ChunkRef, p: Bytes, data: Bytes)
      requires Names(c, p) && Authentic(c.blake3, data)
      ensures data == p
    {
    }

    /** The pieces that a range of the stored blob overlaps. */
    ghost function Needed(pieces: seq<Bytes>, offset: nat, len: nat): seq<Bytes> {
      PiecesFor(ManifestOf(H, pieces).chunks, pieces, offset, offset + len)
    }

    ghost predicate NoneSpoiled(pieces: seq<Bytes>)
      reads this
    {
      forall p :: p in pieces ==> !Spoiled(p)
    }

    /** The manifest of the stored pieces describes them; its chunks on disk are the pieces held. */
    lemma NeededBacked(pieces: seq<Bytes>, offset: nat, len: nat)
      requires HexDigest(H) && NonEmpty(pieces) && |Concat(pieces)| <= U64_MAX && NoCollision(H, pieces)
      ensures IsManifestOf(ManifestOf(H, pieces), pieces)
      ensures OnDisk(Overlapping(ManifestOf(H, pieces).chunks, offset, offset + len))
          <==> forall p :: p in Needed(pieces, offset, len) ==> Holds(p)
      ensures forall p :: p in Needed(pieces, offset, len) ==> p in pieces
    {
      hide Mapped, Holds, Valid, EndsFit, Concat, RefsOf, Overlapping, PiecesFor, NoCollision;
      var m := ManifestOf(H, pieces);
      StoredManifestIsValid(H, pieces);
      ValidIffTiles(m);
      OverlappingBacked(m, pieces, offset, offset + len);
      OverlappingDescribes(H, m.chunks, pieces, offset, offset + len);
    }

    /** A read keeps the cache within what is on disk, and needs no more than that. */
    twostate lemma ReadIsFromDisk(chunks: seq<ChunkRef>)
      requires chunkFiles == old(chunkFiles) && old(CacheOnDisk())
      requires forall k :: Available(k) ==> old(Available(k))
      ensures CacheOnDisk() && (old(AllAvailable(chunks)) ==> OnDisk(chunks))
    {
      forall k | old(Available(k)) ensures Mapped(k).Some? {
        assert old(Mapped(k)).Some?;
      }
      forall k | Lru.Lookup(mmapCache.entries, k).Some? ensures Mapped(k).Some? {
        assert Available(k);
      }
    }

    lemma StaysOnDisk(pieces: seq<Bytes>, m: Manifest, offset: nat, end: nat)
      requires IsManifestOf(m, pieces) && offset < end
      ensures InsideOne(m.chunks, offset, end) && OnDisk(Overlapping(m.chunks, offset, end)) ==>
                OneAvailable(m.chunks, offset, end)
      ensures CacheOnDisk() && OneAvailable(m.chunks, offset, end) ==> OnDisk(Overlapping(m.chunks, offset, end))
    {
      hide Mapped, Valid, EndsFit, Overlapping, Tiles;
      ValidIffTiles(m);
      forall c | c in m.chunks && Inside(c, offset, end)
        ensures forall d :: d in Overlapping(m.chunks, offset, end) <==> d == c
      {
        var i :| 0 <= i < |m.chunks| && m.chunks[i] == c;
        InsideIsOverlap(m.chunks, m.totalSize, i, offset, end);
      }
    }

    /**
     * Store, then read: any blob, cut anyhow, reads back byte for byte on every non-empty range
     * inside it and nowhere else, unless a file of other content had the name of a piece in the
     * range before: storing does not replace it.  With nothing cached but what is on disk a range
     * over such a piece is refused; the cache may still hold the piece otherwise.  Ranges inside
     * one chunk can be served from its mapping, in the same cases.
     */
    method StoreThenRead(pieces: seq<Bytes>, offset: nat, len: nat)
      returns (slice: Option<Bytes>, mapped: Option<Window>, ghost m: Manifest)
      requires ChunksValid() && NonEmpty(pieces) && |Concat(pieces)| <= U64_MAX && NoCollision(H, pieces)
      modifies this`chunkFiles, mmapCache
      ensures ChunksValid() && m == ManifestOf(H, pieces) && (old(CacheOnDisk()) ==> CacheOnDisk())
      ensures slice.Some? ==>
                len > 0 && offset + len <= |Concat(pieces)| && slice.value == Concat(pieces)[offset..offset + len]
      ensures old(NoneSpoiled(Needed(pieces, offset, len))) ==>
                (slice.Some? <==> len > 0 && offset + len <= |Concat(pieces)|)
      ensures old(CacheOnDisk()) ==>
                (slice.Some? <==>
                   && len > 0 && offset + len <= |Concat(pieces)|
                   && old(NoneSpoiled(Needed(pieces, offset, len))))
      ensures old(CacheOnDisk()) || old(NoneSpoiled(Needed(pieces, offset, len))) ==>
                (mapped.Some? <==> slice.Some? && InsideOne(m.chunks, offset, offset + len))
      ensures mapped.Some? ==>
                && InBounds(mapped.value) && len > 0 && offset + len <= |Concat(pieces)|
                && mapped.value.data[mapped.value.from..mapped.value.to] == Concat(pieces)[offset..offset + len]
    {
      hide Concat, Valid, NoCollision, Available, Mapped, Holds, Spoiled, Overlapping, PiecesFor, EndsFit, RefsOf;
      hide IsManifestOf, Needed, OnDisk, AllAvailable, OneAvailable, CacheOnDisk, ManifestOf, InBounds, InsideOne;
      HasHexDigest();
      var manifest := StoreReader(pieces);
      m := manifest;
      NeededBacked(pieces, offset, len);
      label Written:
      slice := BlobSlice(manifest, offset, len, pieces);
      if old@Written(CacheOnDisk()) {
        ReadIsFromDisk@Written(Overlapping(m.chunks, offset, offset + len));
      }
      if len > 0 {
        StaysOnDisk(pieces, m, offset, offset + len);
      }
      label Sliced:
      mapped := BlobRangeMapped(manifest, offset, len, pieces);
      if old@Sliced(CacheOnDisk()) {
        ReadIsFromDisk@Sliced([]);
      }
    }

    // -------------------------------------------------------------------------------------------
    // Manifests and the chunk index
    // -------------------------------------------------------------------------------------------

    /** Manifest files are valid and well named; cached manifests agree with the disk. */
    ghost predicate ManifestsValid()
      reads this, manifestCache
    {
      && manifestCache.Valid()
      && WellNamed(manifestFiles)
      && forall k :: Lru.Lookup(manifestCache.entries, k).Some? ==>
           Current(k, Lru.Lookup(manifestCache.entries, k).value)
    }

    ghost predicate Current(k: string, m: Manifest)
      reads this`manifestFiles
    {
      m.blobHash == k && Valid(m) && (k in manifestFiles ==> m == manifestFiles[k])
    }

    /** The index, if there is one, holds the pairs a rebuild from disk would find. */
    ghost predicate IndexAgrees()
      reads this
    {
      index.Some? ==> Pairs(index.value) == DiskPairs(manifestFiles)
    }

    lemma CacheStaysCurrent(before: Lru.Cache<Manifest>, op: Lru.Op<Manifest>)
      requires manifestCache.Valid() && Lru.Distinct(Lru.Keys(before))
      requires manifestCache.entries == Lru.Apply(before, manifestCache.capacity, op)
      requires forall k :: Lru.Lookup(before, k).Some? ==> Current(k, Lru.Lookup(before, k).value)
      requires op.Insert? ==> Current(op.key, op.value)
      ensures forall k :: Lru.Lookup(manifestCache.entries, k).Some? ==>
                Current(k, Lru.Lookup(manifestCache.entries, k).value)
    {
      forall k | Lru.Lookup(manifestCache.entries, k).Some?
        ensures Current(k, Lru.Lookup(manifestCache.entries, k).value)
      {
        Lru.LookupAfter(before, manifestCache.capacity, op, k);
      }
    }

    /**
     * `save_manifest`.  The index still agrees with the disk afterwards exactly when it was built
     * just now, or nothing a replaced manifest listed is missing from the new one.
     */
    method SaveManifest(m: Manifest) returns (ok: bool)
      requires ManifestsValid() && IndexAgrees()
      modifies this`manifestFiles, this`index, manifestCache
      ensures ManifestsValid()
      ensures ok <==> IsHash(m.blobHash) && Valid(m)
      ensures manifestFiles == if ok then old(manifestFiles)[m.blobHash := m] else old(manifestFiles)
      ensures !ok ==> index == old(index)
      ensures ok ==> index.Some?
      ensures ok ==> (IndexAgrees() <==>
        || old(index).None? || m.blobHash !in old(manifestFiles)
        || ManifestPairs(old(manifestFiles)[m.blobHash]) <= ManifestPairs(m))
    {
      hide Pairs, DiskPairs, ManifestPairs, Valid, IsHash, Lru.Without, Lru.Lookup, Lru.Keys;
      var valid := IsValid(m);
      if !IsHash(m.blobHash) || !valid {
        return false;
      }
      ghost var before := manifestCache.entries;
      manifestCache.Invalidate(m.blobHash);
      forall k | Lru.Lookup(manifestCache.entries, k).Some?
        ensures k != m.blobHash && Current(k, Lru.Lookup(manifestCache.entries, k).value)
      {
        Lru.LookupWithout(before, m.blobHash, k);
      }
      SaveAgreesIff(manifestFiles, m);
      SavedIsOnDisk(manifestFiles, m);
      assert WellNamed(manifestFiles[m.blobHash := m]);
      manifestFiles := manifestFiles[m.blobHash := m];
      var idx: Index;
      if index.Some? {
        idx := index.value;
      } else {
        idx := Build(manifestFiles);
      }
      idx := Ingest(idx, m);
      index := Some(idx);
      return true;
    }

    lemma SavedIsOnDisk(files: map<string, Manifest>, m: Manifest)
      requires Valid(m)
      ensures ManifestPairs(m) <= DiskPairs(files[m.blobHash := m])
    {
      var after := files[m.blobHash := m];
      assert m.blobHash in after && after[m.blobHash] == m;
    }

    /**
     * `load_manifest`: what is on disk comes first whether cached or not; a manifest that is gone
     * from disk is still served from the cache.
     */
    method LoadManifest(blobHash: string) returns (r: Option<Manifest>)
      requires ManifestsValid()
      modifies manifestCache
      ensures ManifestsValid()
      ensures r.Some? ==> Current(blobHash, r.value)
      ensures r == if blobHash in manifestFiles then Some(manifestFiles[blobHash])
                   else if IsHash(blobHash) then old(Lru.Lookup(manifestCache.entries, blobHash)) else None
    {
      hide Valid;
      if !IsHash(blobHash) {
        return None;
      }
      ghost var before := manifestCache.entries;
      r := manifestCache.Get(blobHash);
      CacheStaysCurrent(before, Lru.Get(blobHash));
      if r.Some? {
        return;
      }
      if blobHash !in manifestFiles {
        return None;
      }
      var m := manifestFiles[blobHash];
      var valid := IsValid(m);
      if m.blobHash == blobHash && valid {
        manifestCache.Put(blobHash, m);
        assert Lru.Touched(before, blobHash) == before;
        CacheStaysCurrent(before, Lru.Insert(blobHash, m));
        return Some(m);
      }
      return None;
    }

    method GetIndex() returns (idx: Index)
      requires IndexAgrees()
      modifies this`index
      ensures IndexAgrees() && index == Some(idx) && (old(index).Some? ==> index == old(index))
    {
      if index.Some? {
        return index.value;
      }
      idx := Build(manifestFiles);
      index := Some(idx);
    }

    method RefreshIndex()
      modifies this`index
      ensures IndexAgrees() && index.Some?
    {
      var idx := Build(manifestFiles);
      index := Some(idx);
    }

    /** A manifest is found exactly when one on disk lists the chunk, and it is such a manifest. */
    method FindManifestContainingChunk(chunk: string) returns (r: Option<Manifest>)
      requires ManifestsValid() && IndexAgrees()
      modifies this`index, manifestCache
      ensures ManifestsValid() && IndexAgrees()
      ensures r.Some? <==> exists n :: n in manifestFiles && Lists(manifestFiles[n], chunk)
      ensures r.Some? ==> r.value.blobHash in manifestFiles && r.value == manifestFiles[r.value.blobHash]
                          && Lists(r.value, chunk)
    {
      hide Pairs, DiskPairs, Valid;
      ListedIsHash(chunk);
      if |chunk| != 64 {
        return None;
      }
      var idx := GetIndex();
      IndexedIffListed(manifestFiles, idx, chunk);
      if chunk in idx {
        var candidates := idx[chunk];
        for i := 0 to |candidates|
          invariant ManifestsValid() && index == Some(idx) && i == 0
        {
          assert candidates[i] in candidates;
          r := LoadManifest(candidates[i].0);
          if r.Some? {
            return;
          }
        }
      }
      return None;
    }

    lemma ListedIsHash(chunk: string)
      requires WellNamed(manifestFiles)
      ensures forall n :: n in manifestFiles && Lists(manifestFiles[n], chunk) ==> |chunk| == 64
    {
      forall n | n in manifestFiles && Lists(manifestFiles[n], chunk) ensures |chunk| == 64 {
        var m := manifestFiles[n];
        if m.totalSize > 0 {
          WalkedAreHashes(m.totalSize, m.chunks);
        }
      }
    }

    // -------------------------------------------------------------------------------------------
    // Quota and clear
    // -------------------------------------------------------------------------------------------

    /**
     * `enforce_cache_quota` over the files its walk lists: exactly the evicted files leave the
     * disk, the bytes reported are theirs, and the index is rebuilt when it has to be.  When the
     * walk lists no file twice, the bytes reported and the bytes left add up to the total, and
     * unless a deletion fails what is left is within the quota.
     */
    method EnforceCacheQuota(files: seq<Quota.File>, maxBytes: nat, removable: Quota.Path -> bool)
      returns (reclaimed: nat)
      requires ChunksValid() && ManifestsValid() && IndexAgrees() && WalkOf(chunkFiles, manifestFiles, files)
      modifies this`chunkFiles, this`manifestFiles, this`index
      ensures ChunksValid() && ManifestsValid() && IndexAgrees()
      ensures var removed := Quota.Evicted(Quota.SortedByAge(files), Quota.Total(files), maxBytes, removable);
        && reclaimed == Quota.Total(removed)
        && chunkFiles == old(chunkFiles) - RemovedChunks(removed)
        && manifestFiles == old(manifestFiles) - RemovedManifests(removed)
      ensures
        var removed := Quota.Evicted(Quota.SortedByAge(files), Quota.Total(files), maxBytes, removable);
        && (forall h :: h in chunkFiles <==>
              h in old(chunkFiles) && !exists f :: f in removed && f.path == Quota.ChunkFile(h))
        && (forall n :: n in manifestFiles <==>
              n in old(manifestFiles) && !exists f :: f in removed && f.path == Quota.ManifestFile(n))
      ensures forall h :: h in chunkFiles ==> chunkFiles[h] == old(chunkFiles)[h]
      ensures forall n :: n in manifestFiles ==> manifestFiles[n] == old(manifestFiles)[n]
      ensures Quota.DistinctPaths(files) ==>
                var left := Quota.Total(Surviving(chunkFiles, manifestFiles, files));
                reclaimed + left == Quota.Total(files) && ((forall p :: removable(p)) ==> left <= maxBytes)
    {
      hide Pairs, DiskPairs, Valid, Quota.Evicted, Quota.SortedByAge, Quota.Total, Quota.DistinctPaths;
      hide RemovedChunks, RemovedManifests, Surviving;
      var removed;
      removed, reclaimed := Quota.EvictOldest(files, maxBytes, removable);
      if reclaimed == 0 {
        NoManifestIsEmpty(files, maxBytes, removable);
        assert manifestFiles - RemovedManifests(removed) == manifestFiles;
      }
      ghost var chunks, manifests := chunkFiles, manifestFiles;
      chunkFiles := chunkFiles - RemovedChunks(removed);
      manifestFiles := manifestFiles - RemovedManifests(removed);
      NamedFilesGo(chunks, manifests, removed);
      if Quota.DistinctPaths(files) {
        LeftIsBalance(chunks, manifests, files, maxBytes, removable);
      }
      if reclaimed > 0 {
        RefreshIndex();
      }
    }

    lemma NoManifestIsEmpty(files: seq<Quota.File>, maxBytes: nat, removable: Quota.Path -> bool)
      requires WalkOf(chunkFiles, manifestFiles, files)
      requires Quota.Total(Quota.Evicted(Quota.SortedByAge(files), Quota.Total(files), maxBytes, removable)) == 0
      ensures RemovedManifests(Quota.Evicted(Quota.SortedByAge(files), Quota.Total(files), maxBytes, removable)) == {}
    {
      var sorted := Quota.SortedByAge(files);
      var removed := Quota.Evicted(sorted, Quota.Total(files), maxBytes, removable);
      Quota.NothingIsLost(sorted, Quota.Total(files), maxBytes, removable);
      forall f | f in removed ensures f.size == 0 && f in files {
        Quota.SizeWithinTotal(removed, f);
        assert f in multiset(removed);
        assert f in multiset(sorted);
        assert f in multiset(files);
      }
    }

    /** `clear`: the disk, the index and the manifest cache go; mappings already cached stay. */
    method Clear()
      requires ChunksValid() && ManifestsValid()
      modifies this`chunkFiles, this`manifestFiles, this`index, manifestCache
      ensures ChunksValid() && ManifestsValid() && IndexAgrees()
      ensures chunkFiles == map[] && manifestFiles == map[] && index == None && manifestCache.entries == []
    {
      chunkFiles, manifestFiles := map[], map[];
      index := None;
      manifestCache.Clear();
    }
  }

  /** The input: a wrong file under a piece's hash survives the store, and the blob never reads back. */
  method SpoiledFileIsNotReplaced(H: Bytes -> string, p: Bytes, junk: Bytes) returns (slice: Option<Bytes>)
    requires HexDigest(H) && NoCollision(H, [p]) && p != [] && |p| <= U64_MAX && junk != p
    ensures slice == None
  {
    hide ChunkStore.Needed, Overlapping, PiecesFor, Valid, ManifestOf, InsideOne, Describes, InBounds;
    var store := new ChunkStore(H);
    var written := store.PutTrusted(H(p), junk);
    assert store.Spoiled(p);
    assert Concat([p]) == p + Concat([]) == p;
    OneNeeded(store, p);
    var mapped;
    ghost var m;
    slice, mapped, m := store.StoreThenRead([p], 0, |p|);
  }

  /** Reading a blob of one piece needs that piece. */
  lemma OneNeeded(store: ChunkStore, p: Bytes)
    requires p != []
    ensures p in store.Needed([p], 0, |p|)
  {
    var refs := ManifestOf(store.H, [p]).chunks;
    assert refs == [ChunkRef(store.H(p), 0, |p|)];
    assert Overlapping(refs[1..], 0, |p|) == [];
  }
}
