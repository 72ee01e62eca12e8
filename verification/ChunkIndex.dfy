/** The chunk index of media-core/src/cas.rs: which stored manifests list a chunk, and where. */
module ChunkIndex {
  import opened Chunking

  /** Owning blob and offset of each occurrence of a chunk. */
  type Index = map<string, seq<(string, nat)>>

  datatype Occurrence = Occurrence(chunk: string, blob: string, offset: nat)

  function Pairs(idx: Index): set<Occurrence> {
    set k, p | k in idx && p in idx[k] :: Occurrence(k, p.0, p.1)
  }

  function ManifestPairs(m: Manifest): set<Occurrence> {
    set c | c in m.chunks :: Occurrence(c.blake3, m.blobHash, c.offset)
  }

  /** What a rebuild from the manifests directory finds. */
  function DiskPairs(files: map<string, Manifest>): set<Occurrence> {
    set n, c | n in files && Valid(files[n]) && c in files[n].chunks ::
      Occurrence(c.blake3, files[n].blobHash, c.offset)
  }

  method Ingest(idx: Index, m: Manifest) returns (r: Index)
    ensures Pairs(r) == Pairs(idx) + ManifestPairs(m)
    ensures forall k :: k in idx ==> k in r
  {
    r := idx;
    for i := 0 to |m.chunks|
      invariant Pairs(r) == Pairs(idx) + set c | c in m.chunks[..i] :: Occurrence(c.blake3, m.blobHash, c.offset)
      invariant forall k :: k in idx ==> k in r
    {
      var c := m.chunks[i];
      PairsPush(r, c.blake3, (m.blobHash, c.offset));
      assert m.chunks[..i + 1] == m.chunks[..i] + [c];
      var places := if c.blake3 in r then r[c.blake3] else [];
      r := r[c.blake3 := places + [(m.blobHash, c.offset)]];
    }
    assert m.chunks[..|m.chunks|] == m.chunks;
  }

  lemma PairsPush(idx: Index, k: string, p: (string, nat))
    ensures var places := if k in idx then idx[k] else [];
      Pairs(idx[k := places + [p]]) == Pairs(idx) + {Occurrence(k, p.0, p.1)}
  {
    var places := if k in idx then idx[k] else [];
    var after := idx[k := places + [p]];
    assert p in after[k];
    forall j, q | j in idx && q in idx[j] ensures j in after && q in after[j] {
    }
  }

  /** `ChunkIndex::build`: reads the manifest files in whatever order the directory lists them. */
  method Build(files: map<string, Manifest>) returns (idx: Index)
    ensures Pairs(idx) == DiskPairs(files)
  {
    hide Pairs, ManifestPairs, DiskPairs, Valid;
    idx := map[];
    var rest := files.Keys;
    ghost var seen: map<string, Manifest> := map[];
    NothingIndexed();
    while rest != {}
      invariant rest <= files.Keys && seen == files - rest
      invariant Pairs(idx) == DiskPairs(seen)
      decreases |rest|
    {
      var name :| name in rest;
      rest := rest - {name};
      DiskPairsAdd(seen, name, files[name]);
      assert seen[name := files[name]] == files - rest;
      seen := seen[name := files[name]];
      var ok := IsValid(files[name]);
      if ok {
        idx := Ingest(idx, files[name]);
      }
    }
    assert files - {} == files;
  }

  lemma NothingIndexed()
    ensures Pairs(map[]) == {} && DiskPairs(map[]) == {}
  {
  }

  lemma DiskPairsAdd(files: map<string, Manifest>, name: string, m: Manifest)
    requires name !in files
    ensures DiskPairs(files[name := m]) == DiskPairs(files) + if Valid(m) then ManifestPairs(m) else {}
  {
    var after := files[name := m];
    forall n, c | n in files && Valid(files[n]) && c in files[n].chunks
      ensures n in after && after[n] == files[n]
    {
    }
    assert name in after && after[name] == m;
  }

  /** Every manifest file is valid and named after its blob. */
  ghost predicate WellNamed(files: map<string, Manifest>) {
    forall n :: n in files ==> Valid(files[n]) && files[n].blobHash == n && IsHash(n)
  }

  /**
   * Adding the pairs of a saved manifest to an index that agrees with the disk gives what a
   * rebuild would, exactly when no occurrence of a manifest it replaces is lost.
   */
  lemma SaveAgreesIff(files: map<string, Manifest>, m: Manifest)
    requires WellNamed(files) && Valid(m)
    ensures DiskPairs(files) + ManifestPairs(m) == DiskPairs(files[m.blobHash := m])
        <==> (m.blobHash in files ==> ManifestPairs(files[m.blobHash]) <= ManifestPairs(m))
  {
    var others := files - {m.blobHash};
    assert files[m.blobHash := m] == others[m.blobHash := m];
    DiskPairsAdd(others, m.blobHash, m);
    assert forall p :: p in DiskPairs(others) ==> p.blob != m.blobHash;
    if m.blobHash in files {
      assert files == others[m.blobHash := files[m.blobHash]];
      DiskPairsAdd(others, m.blobHash, files[m.blobHash]);
      assert forall p :: p in ManifestPairs(files[m.blobHash]) ==> p.blob == m.blobHash;
    } else {
      assert files == others;
    }
  }

  /** The input: one blob hash saved with one chunk, then with another; the first one's pair is left over. */
  lemma ReplacedManifestLeavesPairs(blob: string, x: string, y: string, len: nat)
    requires IsHash(blob) && IsHash(x) && IsHash(y) && x != y && 0 < len <= U64_MAX
    ensures var m, n := Manifest(blob, len, [ChunkRef(x, 0, len)]), Manifest(blob, len, [ChunkRef(y, 0, len)]);
      && Valid(m) && Valid(n) && WellNamed(map[blob := m])
      && DiskPairs(map[blob := m]) + ManifestPairs(n) != DiskPairs(map[blob := m][blob := n])
  {
    var m, n := Manifest(blob, len, [ChunkRef(x, 0, len)]), Manifest(blob, len, [ChunkRef(y, 0, len)]);
    assert m.chunks[..0] == [] && n.chunks[..0] == [];
    assert Walked(len, []).Some? && Valid(m) && Valid(n);
    assert m.chunks[0] in m.chunks;
    assert Occurrence(x, blob, 0) in ManifestPairs(m);
    assert forall p :: p in ManifestPairs(n) ==> p.chunk == y;
    SaveAgreesIff(map[blob := m], n);
  }

  /** A chunk is in an agreeing index exactly when a manifest on disk lists it. */
  lemma IndexedIffListed(files: map<string, Manifest>, idx: Index, chunk: string)
    requires WellNamed(files) && Pairs(idx) == DiskPairs(files)
    ensures chunk in idx && idx[chunk] != [] <==>
              exists n, c :: n in files && c in files[n].chunks && c.blake3 == chunk
    ensures chunk in idx ==> forall p :: p in idx[chunk] ==>
              p.0 in files && exists c :: c in files[p.0].chunks && c.blake3 == chunk && c.offset == p.1
    ensures forall n, c :: n in files && c in files[n].chunks && c.blake3 == chunk ==>
              chunk in idx && (n, c.offset) in idx[chunk]
  {
    hide Valid;
    forall p | chunk in idx && p in idx[chunk]
      ensures p.0 in files && exists c :: c in files[p.0].chunks && c.blake3 == chunk && c.offset == p.1
    {
      assert Occurrence(chunk, p.0, p.1) in Pairs(idx);
    }
    forall n, c | n in files && c in files[n].chunks && c.blake3 == chunk
      ensures chunk in idx && (n, c.offset) in idx[chunk]
    {
      assert Occurrence(chunk, n, c.offset) in DiskPairs(files);
      assert Occurrence(chunk, n, c.offset) in Pairs(idx);
    }
    if chunk in idx && idx[chunk] != [] {
      assert idx[chunk][0] in idx[chunk];
    }
  }
}
