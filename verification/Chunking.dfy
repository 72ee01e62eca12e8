/** Chunk manifests: the validator and the manifest writer of media-core/src/chunking.rs. */
module Chunking {
  import opened Wrappers
  import opened ByteStrings
  import opened Ascii

  const U64_MAX: nat := 0xFFFF_FFFF_FFFF_FFFF

  datatype ChunkRef = ChunkRef(blake3: string, offset: nat, len: nat)

  datatype Manifest = Manifest(blobHash: string, totalSize: nat, chunks: seq<ChunkRef>)

  function SaturatingAdd(a: nat, b: nat): nat {
    if a + b > U64_MAX then U64_MAX else a + b
  }

  predicate IsHexDigit(c: char) {
    '0' <= c <= '9' || 'a' <= c <= 'f' || 'A' <= c <= 'F'
  }

  predicate IsHash(s: string) {
    |s| == 64 && forall i :: 0 <= i < |s| ==> IsHexDigit(s[i])
  }

  /** A hash is 64 hexadecimal digits of either case. */
  lemma HashesAreHex(s: string)
    ensures IsHash(s) <==> |s| == 64 && forall c :: c in s ==> c in "0123456789abcdefABCDEF"
  {
    forall c: char ensures IsHexDigit(c) <==> c in "0123456789abcdefABCDEF" {
      HexDigits(c);
    }
    assert forall i :: 0 <= i < |s| ==> s[i] in s;
  }

  lemma HexDigits(c: char)
    ensures IsHexDigit(c) <==> c in "0123456789abcdefABCDEF"
  {
    var d := "0123456789abcdefABCDEF";
    assert d[0] == '0' && d[1] == '1' && d[2] == '2' && d[3] == '3' && d[4] == '4' && d[5] == '5' && d[6] == '6'
        && d[7] == '7' && d[8] == '8' && d[9] == '9';
    assert d[10] == 'a' && d[11] == 'b' && d[12] == 'c' && d[13] == 'd' && d[14] == 'e' && d[15] == 'f';
    assert d[16] == 'A' && d[17] == 'B' && d[18] == 'C' && d[19] == 'D' && d[20] == 'E' && d[21] == 'F';
  }

  // ---------------------------------------------------------------------------------------------
  // Validation
  // ---------------------------------------------------------------------------------------------

  /** The walk over the chunks: where the next chunk must start, or nothing when one is refused. */
  function Walked(total: nat, chunks: seq<ChunkRef>): Option<nat> {
    if chunks == [] then Some(0)
    else match Walked(total, chunks[..|chunks| - 1])
      case None => None
      case Some(next) =>
        var c := chunks[|chunks| - 1];
        var end := SaturatingAdd(c.offset, c.len);
        if c.offset != next || c.len == 0 || !IsHash(c.blake3) || end > total then None else Some(end)
  }

  predicate Valid(m: Manifest) {
    if m.totalSize == 0 then m.chunks == [] else Walked(m.totalSize, m.chunks) == Some(m.totalSize)
  }

  method IsValid(m: Manifest) returns (ok: bool)
    ensures ok == Valid(m)
  {
    if m.totalSize == 0 {
      return m.chunks == [];
    }
    var next := 0;
    for i := 0 to |m.chunks|
      invariant Walked(m.totalSize, m.chunks[..i]) == Some(next)
    {
      var c := m.chunks[i];
      assert m.chunks[..i + 1][..i] == m.chunks[..i];
      if c.offset != next || c.len == 0 || |c.blake3| != 64 {
        RefusedForGood(m.totalSize, m.chunks, i + 1);
        return false;
      }
      if !IsHash(c.blake3) {
        RefusedForGood(m.totalSize, m.chunks, i + 1);
        return false;
      }
      next := SaturatingAdd(c.offset, c.len);
      if next > m.totalSize {
        RefusedForGood(m.totalSize, m.chunks, i + 1);
        return false;
      }
    }
    assert m.chunks[..|m.chunks|] == m.chunks;
    return next == m.totalSize;
  }

  lemma {:induction false} RefusedForGood(total: nat, chunks: seq<ChunkRef>, i: nat)
    requires i <= |chunks| && Walked(total, chunks[..i]) == None
    ensures Walked(total, chunks) == None
    decreases |chunks| - i
  {
    if i < |chunks| {
      assert chunks[..i + 1][..i] == chunks[..i];
      RefusedForGood(total, chunks, i + 1);
    } else {
      assert chunks[..i] == chunks;
    }
  }

  lemma {:induction false} WalkedAreHashes(total: nat, chunks: seq<ChunkRef>)
    requires Walked(total, chunks).Some?
    ensures forall c :: c in chunks ==> IsHash(c.blake3)
  {
    if chunks != [] {
      WalkedAreHashes(total, chunks[..|chunks| - 1]);
      assert chunks == chunks[..|chunks| - 1] + [chunks[|chunks| - 1]];
    }
  }

  /** The chunks cover `[base, end)` in order, without gap or overlap. */
  ghost predicate Tiles(chunks: seq<ChunkRef>, base: nat, end: nat)
    decreases |chunks|
  {
    if chunks == [] then base == end
    else
      && chunks[0].offset == base && chunks[0].len > 0 && IsHash(chunks[0].blake3)
      && Tiles(chunks[1..], base + chunks[0].len, end)
  }

  lemma {:induction false} TilesAppend(chunks: seq<ChunkRef>, c: ChunkRef, base: nat, mid: nat)
    requires Tiles(chunks, base, mid)
    ensures forall end: nat :: Tiles(chunks + [c], base, end) <==>
              c.offset == mid && c.len > 0 && IsHash(c.blake3) && end == mid + c.len
    decreases |chunks|
  {
    if chunks != [] {
      assert (chunks + [c])[1..] == chunks[1..] + [c];
      TilesAppend(chunks[1..], c, base + chunks[0].len, mid);
    } else {
      assert (chunks + [c])[1..] == [];
    }
  }

  lemma {:induction false} TilesPrefix(chunks: seq<ChunkRef>, base: nat, end: nat, i: nat) returns (mid: nat)
    requires Tiles(chunks, base, end) && i <= |chunks|
    ensures Tiles(chunks[..i], base, mid) && mid <= end
    decreases |chunks|
  {
    if i == 0 {
      mid := base;
      TilesEnd(chunks, base, end);
    } else {
      mid := TilesPrefix(chunks[1..], base + chunks[0].len, end, i - 1);
      assert chunks[..i][1..] == chunks[1..][..i - 1];
    }
  }

  lemma {:induction false} TilesEnd(chunks: seq<ChunkRef>, base: nat, end: nat)
    requires Tiles(chunks, base, end)
    ensures base <= end && (chunks != [] ==> base < end)
    decreases |chunks|
  {
    if chunks != [] {
      TilesEnd(chunks[1..], base + chunks[0].len, end);
    }
  }

  /** No end of a chunk needs the saturation. */
  ghost predicate EndsFit(chunks: seq<ChunkRef>) {
    forall c :: c in chunks ==> c.offset + c.len <= 18_446_744_073_709_551_615
  }

  lemma {:induction false} WalkedIffTiles(total: nat, chunks: seq<ChunkRef>, end: nat)
    requires total <= U64_MAX
    ensures Walked(total, chunks) == Some(end) && EndsFit(chunks) <==> Tiles(chunks, 0, end) && end <= total
    decreases |chunks|
  {
    if chunks != [] {
      var before, c := chunks[..|chunks| - 1], chunks[|chunks| - 1];
      assert chunks == before + [c];
      if Tiles(chunks, 0, end) {
        var mid := TilesPrefix(chunks, 0, end, |before|);
        WalkedIffTiles(total, before, mid);
        TilesAppend(before, c, 0, mid);
      } else if Walked(total, before).Some? && EndsFit(before) {
        var mid := Walked(total, before).value;
        WalkedIffTiles(total, before, mid);
        TilesAppend(before, c, 0, mid);
      }
    }
  }

  lemma {:induction false} WalkedStaysBelow(total: nat, chunks: seq<ChunkRef>)
    requires Walked(total, chunks).Some?
    ensures Walked(total, chunks).value <= U64_MAX && Walked(total, chunks).value <= total
    ensures total < U64_MAX ==> EndsFit(chunks)
  {
    if chunks != [] {
      WalkedStaysBelow(total, chunks[..|chunks| - 1]);
      assert chunks == chunks[..|chunks| - 1] + [chunks[|chunks| - 1]];
    }
  }

  /**
   * Whatever the size, the manifests whose chunks tile the blob are exactly the valid ones in
   * which no end of a chunk had to be saturated; below 2^64 - 1 bytes that is every valid one.
   */
  lemma ValidIffTiles(m: Manifest)
    ensures Tiles(m.chunks, 0, m.totalSize) && m.totalSize <= U64_MAX <==> Valid(m) && EndsFit(m.chunks)
    ensures Valid(m) && m.totalSize < 18_446_744_073_709_551_615 ==> EndsFit(m.chunks)
  {
    if Walked(m.totalSize, m.chunks).Some? {
      WalkedStaysBelow(m.totalSize, m.chunks);
    }
    if m.totalSize <= U64_MAX {
      WalkedIffTiles(m.totalSize, m.chunks, m.totalSize);
    }
    if m.totalSize == 0 && Tiles(m.chunks, 0, 0) {
      TilesEnd(m.chunks, 0, 0);
    }
  }

  /** At 2^64 - 1 the saturating sum accepts a last chunk that overshoots the blob. */
  lemma SaturationHidesOvershoot(h: string, len: nat)
    requires IsHash(h) && len > 1
    ensures var m := Manifest(h, U64_MAX, [ChunkRef(h, 0, U64_MAX - 1), ChunkRef(h, U64_MAX - 1, len)]);
      Valid(m) && !EndsFit(m.chunks) && !Tiles(m.chunks, 0, m.totalSize)
  {
    var a, b := ChunkRef(h, 0, U64_MAX - 1), ChunkRef(h, U64_MAX - 1, len);
    assert [a, b][..1] == [a] && [a][..0] == [];
    assert b in [a, b];
    assert [a, b][1..] == [b] && [b][1..] == [];
    assert Walked(U64_MAX, [a]) == Some(U64_MAX - 1);
    assert !Tiles([], U64_MAX - 1 + len, U64_MAX);
    assert !Tiles([b], U64_MAX - 1, U64_MAX);
  }

  // ---------------------------------------------------------------------------------------------
  // Manifests of stored blobs
  // ---------------------------------------------------------------------------------------------

  /** BLAKE3 in lower-case hex. */
  ghost predicate HexDigest(H: Bytes -> string) {
    forall d :: IsHash(H(d)) && Lower(H(d)) == H(d)
  }

  function Concat(pieces: seq<Bytes>): Bytes {
    if pieces == [] then [] else pieces[0] + Concat(pieces[1..])
  }

  /** The references of pieces cut at content-defined boundaries, the first one starting at `base`. */
  function RefsOf(H: Bytes -> string, pieces: seq<Bytes>, base: nat): (r: seq<ChunkRef>)
    ensures |r| == |pieces|
    decreases |pieces|
  {
    if pieces == [] then []
    else [ChunkRef(H(pieces[0]), base, |pieces[0]|)] + RefsOf(H, pieces[1..], base + |pieces[0]|)
  }

  function ManifestOf(H: Bytes -> string, pieces: seq<Bytes>): Manifest {
    Manifest(H(Concat(pieces)), |Concat(pieces)|, RefsOf(H, pieces, 0))
  }

  /** The manifest lists exactly these pieces, with their hashes and lengths. */
  ghost predicate Describes(H: Bytes -> string, chunks: seq<ChunkRef>, pieces: seq<Bytes>) {
    && |chunks| == |pieces|
    && forall i :: 0 <= i < |pieces| ==> Lower(chunks[i].blake3) == H(pieces[i]) && chunks[i].len == |pieces[i]|
  }

  ghost predicate NonEmpty(pieces: seq<Bytes>) {
    forall i :: 0 <= i < |pieces| ==> pieces[i] != []
  }

  lemma {:induction false} RefsDescribe(H: Bytes -> string, pieces: seq<Bytes>, base: nat)
    requires HexDigest(H) && NonEmpty(pieces)
    ensures Tiles(RefsOf(H, pieces, base), base, base + |Concat(pieces)|)
    ensures Describes(H, RefsOf(H, pieces, base), pieces)
    decreases |pieces|
  {
    if pieces != [] {
      RefsDescribe(H, pieces[1..], base + |pieces[0]|);
      assert RefsOf(H, pieces, base)[1..] == RefsOf(H, pieces[1..], base + |pieces[0]|);
    }
  }

  /** Storing any blob yields a valid manifest, whatever the cut. */
  lemma StoredManifestIsValid(H: Bytes -> string, pieces: seq<Bytes>)
    requires HexDigest(H) && NonEmpty(pieces) && |Concat(pieces)| <= U64_MAX
    ensures Valid(ManifestOf(H, pieces)) && EndsFit(ManifestOf(H, pieces).chunks)
    ensures Describes(H, ManifestOf(H, pieces).chunks, pieces)
    ensures ManifestOf(H, pieces).blobHash == H(Concat(pieces)) && ManifestOf(H, pieces).totalSize == |Concat(pieces)|
  {
    RefsDescribe(H, pieces, 0);
    ValidIffTiles(ManifestOf(H, pieces));
  }
}
