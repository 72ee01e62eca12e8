/** The window arithmetic of range reads in media-core/src/cas.rs. */
module Slicing {
  import opened Wrappers
  import opened ByteStrings
  import opened Chunking

  /** One chunk's contribution to a range read. */
  datatype Window = Window(data: Bytes, from: nat, to: nat)

  predicate InBounds(w: Window) {
    w.from <= w.to <= |w.data|
  }

  /** The chunks that overlap `[offset, end)`, in manifest order. */
  function Overlapping(chunks: seq<ChunkRef>, offset: nat, end: nat): seq<ChunkRef> {
    if chunks == [] || chunks[0].offset >= end then []
    else
      var rest := Overlapping(chunks[1..], offset, end);
      if chunks[0].offset + chunks[0].len > offset then [chunks[0]] + rest else rest
  }

  method CollectOverlapping(chunks: seq<ChunkRef>, offset: nat, end: nat) returns (r: seq<ChunkRef>)
    ensures r == Overlapping(chunks, offset, end)
  {
    r := [];
    var i := 0;
    assert chunks[0..] == chunks;
    while i < |chunks| && chunks[i].offset < end
      invariant 0 <= i <= |chunks|
      invariant r + Overlapping(chunks[i..], offset, end) == Overlapping(chunks, offset, end)
    {
      assert chunks[i..][1..] == chunks[i + 1..];
      if chunks[i].offset + chunks[i].len > offset {
        assert r + Overlapping(chunks[i..], offset, end)
            == (r + [chunks[i]]) + Overlapping(chunks[i + 1..], offset, end);
        r := r + [chunks[i]];
      }
      i := i + 1;
    }
  }

  /** The window of the range in a chunk whose stored bytes are `data`. */
  function Resolved(c: ChunkRef, data: Bytes, offset: nat, end: nat): Option<Window> {
    if c.offset + c.len <= offset || c.offset >= end then Some(Window(data, 0, 0))
    else
      var from := if offset < c.offset then 0 else offset - c.offset;
      var to := if end - c.offset < |data| then end - c.offset else |data|;
      if from > to then None else Some(Window(data, from, to))
  }

  function Joined(windows: seq<Window>): Bytes {
    if windows == [] then []
    else Joined(windows[..|windows| - 1]) +
         var w := windows[|windows| - 1]; if InBounds(w) then w.data[w.from..w.to] else []
  }

  /** Where position `at` falls in data that starts at `base`. */
  function Place(data: Bytes, base: nat, at: nat): (r: nat)
    ensures r <= |data|
  {
    if at < base then 0 else if at - base > |data| then |data| else at - base
  }

  /** The bytes `[lo, hi)` of the data that starts at `base`, as far as the data reaches. */
  function Clip(data: Bytes, base: nat, lo: nat, hi: nat): Bytes {
    var from, to := Place(data, base, lo), Place(data, base, hi);
    if from <= to then data[from..to] else []
  }

  /** The pieces behind the overlapping chunks. */
  function PiecesFor(chunks: seq<ChunkRef>, pieces: seq<Bytes>, offset: nat, end: nat): (r: seq<Bytes>)
    requires |chunks| == |pieces|
    ensures |r| == |Overlapping(chunks, offset, end)|
  {
    if chunks == [] || chunks[0].offset >= end then []
    else
      var rest := PiecesFor(chunks[1..], pieces[1..], offset, end);
      if chunks[0].offset + chunks[0].len > offset then [pieces[0]] + rest else rest
  }

  /** Overlapping chunks and their pieces are still described by each other. */
  lemma {:induction false} OverlappingDescribes(H: Bytes -> string, chunks: seq<ChunkRef>, pieces: seq<Bytes>,
                                                offset: nat, end: nat)
    requires Describes(H, chunks, pieces)
    ensures Describes(H, Overlapping(chunks, offset, end), PiecesFor(chunks, pieces, offset, end))
    ensures forall p :: p in PiecesFor(chunks, pieces, offset, end) ==> p in pieces
    ensures forall c :: c in Overlapping(chunks, offset, end) ==>
              c in chunks && c.offset < end && offset < c.offset + c.len
    decreases |chunks|
  {
    if chunks != [] && chunks[0].offset < end {
      OverlappingDescribes(H, chunks[1..], pieces[1..], offset, end);
      assert pieces == [pieces[0]] + pieces[1..];
      assert chunks == [chunks[0]] + chunks[1..];
    }
  }

  /** The windows of the overlapping chunks, when every chunk holds its piece. */
  function WindowsOf(over: seq<ChunkRef>, held: seq<Bytes>, offset: nat, end: nat): seq<Option<Window>>
    requires |over| == |held|
  {
    seq(|over|, i requires 0 <= i < |over| => Resolved(over[i], held[i], offset, end))
  }

  ghost predicate AllSome(ws: seq<Option<Window>>) {
    forall i :: 0 <= i < |ws| ==> ws[i].Some? && InBounds(ws[i].value)
  }

  function Values(ws: seq<Option<Window>>): seq<Window>
    requires AllSome(ws)
  {
    seq(|ws|, i requires 0 <= i < |ws| => ws[i].value)
  }

  lemma {:induction false} JoinedCons(w: Window, ws: seq<Window>)
    requires InBounds(w)
    ensures Joined([w] + ws) == w.data[w.from..w.to] + Joined(ws)
    decreases |ws|
  {
    if ws == [] {
      assert [w] + ws == [w];
      assert [w][..0] == [];
    } else {
      var before := ws[..|ws| - 1];
      assert ([w] + ws)[..|ws|] == [w] + before;
      JoinedCons(w, before);
    }
  }

  /** The window of one overlapping chunk is the range clipped to it. */
  lemma HeadWindow(c: ChunkRef, p: Bytes, offset: nat, end: nat)
    requires |p| == c.len && c.offset < end && offset < c.offset + c.len && offset <= end
    ensures var w := Resolved(c, p, offset, end);
      w.Some? && InBounds(w.value) && w.value.data[w.value.from..w.value.to] == Clip(p, c.offset, offset, end)
  {
  }

  lemma ClipOutside(p: Bytes, base: nat, lo: nat, hi: nat)
    requires lo <= hi && (base + |p| <= lo || hi <= base)
    ensures Clip(p, base, lo, hi) == []
  {
  }

  lemma ClipSplit(p: Bytes, rest: Bytes, base: nat, lo: nat, hi: nat)
    requires lo <= hi
    ensures Clip(p + rest, base, lo, hi) == Clip(p, base, lo, hi) + Clip(rest, base + |p|, lo, hi)
  {
    PlaceSplit(p, rest, base, lo);
    PlaceSplit(p, rest, base, hi);
    PlaceMonotone(p, base, lo, hi);
    PlaceMonotone(rest, base + |p|, lo, hi);
    var from, to := Place(p, base, lo), Place(p, base, hi);
    var from', to' := Place(rest, base + |p|, lo), Place(rest, base + |p|, hi);
    hide Place;
    SliceSplit(p, rest, from, to, from', to');
  }

  lemma PlaceSplit(p: Bytes, rest: Bytes, base: nat, at: nat)
    ensures Place(p + rest, base, at) == Place(p, base, at) + Place(rest, base + |p|, at)
    ensures Place(p, base, at) == |p| || Place(rest, base + |p|, at) == 0
  {
  }

  lemma PlaceMonotone(data: Bytes, base: nat, lo: nat, hi: nat)
    requires lo <= hi
    ensures Place(data, base, lo) <= Place(data, base, hi)
  {
  }

  lemma SliceSplit(p: Bytes, rest: Bytes, from: nat, to: nat, from': nat, to': nat)
    requires from <= to <= |p| && from' <= to' <= |rest|
    requires (from == |p| || from' == 0) && (to == |p| || to' == 0)
    ensures (p + rest)[from + from'..to + to'] == p[from..to] + rest[from'..to']
  {
  }

  lemma WindowsOfCons(c: ChunkRef, p: Bytes, over: seq<ChunkRef>, held: seq<Bytes>, offset: nat, end: nat)
    requires |over| == |held|
    requires var w := Resolved(c, p, offset, end); w.Some? && InBounds(w.value)
    requires AllSome(WindowsOf(over, held, offset, end))
    ensures var w, ws := Resolved(c, p, offset, end), WindowsOf([c] + over, [p] + held, offset, end);
      AllSome(ws) && Values(ws) == [w.value] + Values(WindowsOf(over, held, offset, end))
  {
    hide Resolved, InBounds;
    var rest, ws := WindowsOf(over, held, offset, end), WindowsOf([c] + over, [p] + held, offset, end);
    assert ws == [Resolved(c, p, offset, end)] + rest;
    assert forall i :: 0 <= i < |rest| ==> ws[i + 1] == rest[i];
  }

  /** Chunks that tile a blob and hold its pieces yield exactly the bytes of the range. */
  lemma {:induction false} WindowsTileRange(H: Bytes -> string, chunks: seq<ChunkRef>, pieces: seq<Bytes>,
                                            base: nat, stop: nat, offset: nat, end: nat)
    requires Tiles(chunks, base, stop) && Describes(H, chunks, pieces) && offset <= end
    ensures var ws := WindowsOf(Overlapping(chunks, offset, end), PiecesFor(chunks, pieces, offset, end), offset, end);
      AllSome(ws) && Joined(Values(ws)) == Clip(Concat(pieces), base, offset, end)
    decreases |chunks|
  {
    hide Resolved, Clip, Joined, InBounds;
    if chunks == [] || end <= base {
      ClipOutsideAll(pieces, base, offset, end);
      var over, held := Overlapping(chunks, offset, end), PiecesFor(chunks, pieces, offset, end);
      NoWindows(Values(WindowsOf(over, held, offset, end)));
    } else {
      var c, p := chunks[0], pieces[0];
      var over, held := Overlapping(chunks[1..], offset, end), PiecesFor(chunks[1..], pieces[1..], offset, end);
      var ws := WindowsOf(over, held, offset, end);
      WindowsTileRange(H, chunks[1..], pieces[1..], base + c.len, stop, offset, end);
      ClipSplit(p, Concat(pieces[1..]), base, offset, end);
      if base + c.len > offset {
        HeadWindow(c, p, offset, end);
        WindowsOfCons(c, p, over, held, offset, end);
        JoinedCons(Resolved(c, p, offset, end).value, Values(ws));
      } else {
        ClipOutside(p, base, offset, end);
      }
    }
  }

  lemma NoWindows(ws: seq<Window>)
    ensures ws == [] ==> Joined(ws) == []
  {
  }

  lemma ClipOutsideAll(pieces: seq<Bytes>, base: nat, lo: nat, hi: nat)
    requires lo <= hi && (pieces == [] || hi <= base)
    ensures Clip(Concat(pieces), base, lo, hi) == []
  {
  }

  // ---------------------------------------------------------------------------------------------
  // Copying
  // ---------------------------------------------------------------------------------------------

  function TotalLen(windows: seq<Window>): nat {
    if windows == [] then 0
    else
      var w := windows[|windows| - 1];
      TotalLen(windows[..|windows| - 1]) + if InBounds(w) then w.to - w.from else 0
  }

  lemma {:induction false} JoinedLength(windows: seq<Window>)
    ensures |Joined(windows)| == TotalLen(windows)
  {
    if windows != [] {
      JoinedLength(windows[..|windows| - 1]);
    }
  }

  lemma {:induction false} TotalLenPrefix(windows: seq<Window>, i: nat)
    requires i <= |windows|
    ensures TotalLen(windows[..i]) <= TotalLen(windows)
    decreases |windows|
  {
    if i < |windows| {
      TotalLenPrefix(windows[..|windows| - 1], i);
      assert windows[..|windows| - 1][..i] == windows[..i];
    } else {
      assert windows[..i] == windows;
    }
  }

  method CopyFrom(out: array<byte>, pos: nat, w: Window)
    requires InBounds(w) && pos + (w.to - w.from) <= out.Length
    modifies out
    ensures out[..pos + (w.to - w.from)] == old(out[..pos]) + w.data[w.from..w.to]
  {
    forall k | 0 <= k < w.to - w.from {
      out[pos + k] := w.data[w.from + k];
    }
  }

  /** Copies the windows one after the other into one buffer, which they fill exactly. */
  method CopyWindows(windows: seq<Window>, len: nat) returns (out: array<byte>)
    requires TotalLen(windows) == len && forall i :: 0 <= i < |windows| ==> InBounds(windows[i])
    ensures fresh(out) && out[..] == Joined(windows)
  {
    out := new byte[len](_ => 0);
    var pos := 0;
    for i := 0 to |windows|
      invariant pos == TotalLen(windows[..i]) <= len && out[..pos] == Joined(windows[..i])
    {
      var w := windows[i];
      assert windows[..i + 1][..i] == windows[..i];
      TotalLenPrefix(windows, i + 1);
      CopyFrom(out, pos, w);
      pos := pos + (w.to - w.from);
    }
    assert windows[..|windows|] == windows;
    assert out[..len] == out[..];
  }

  // ---------------------------------------------------------------------------------------------
  // Ranges of a described blob
  // ---------------------------------------------------------------------------------------------

  lemma {:induction false} TilesLength(H: Bytes -> string, chunks: seq<ChunkRef>, pieces: seq<Bytes>,
                                       base: nat, stop: nat)
    requires Tiles(chunks, base, stop) && Describes(H, chunks, pieces)
    ensures stop == base + |Concat(pieces)|
    decreases |chunks|
  {
    if chunks != [] {
      TilesLength(H, chunks[1..], pieces[1..], base + chunks[0].len, stop);
    }
  }

  lemma {:induction false} TilesAreHashes(chunks: seq<ChunkRef>, base: nat, stop: nat)
    requires Tiles(chunks, base, stop)
    ensures forall c :: c in chunks ==> IsHash(c.blake3) && c.len > 0
    decreases |chunks|
  {
    if chunks != [] {
      TilesAreHashes(chunks[1..], base + chunks[0].len, stop);
      assert chunks == [chunks[0]] + chunks[1..];
    }
  }

  /** The windows into the pieces of a described blob join to the range asked for. */
  lemma RangeOfPieces(H: Bytes -> string, m: Manifest, pieces: seq<Bytes>, offset: nat, end: nat)
    requires Tiles(m.chunks, 0, m.totalSize) && Describes(H, m.chunks, pieces) && offset <= end <= m.totalSize
    ensures |Concat(pieces)| == m.totalSize
    ensures var over, held := Overlapping(m.chunks, offset, end), PiecesFor(m.chunks, pieces, offset, end);
      var ws := WindowsOf(over, held, offset, end);
      AllSome(ws) && Joined(Values(ws)) == Concat(pieces)[offset..end]
  {
    TilesLength(H, m.chunks, pieces, 0, m.totalSize);
    WindowsTileRange(H, m.chunks, pieces, 0, m.totalSize, offset, end);
  }

  /** The range lies inside one chunk. */
  predicate Inside(c: ChunkRef, offset: nat, end: nat) {
    c.offset <= offset && end <= c.offset + c.len
  }

  ghost predicate InsideOne(chunks: seq<ChunkRef>, offset: nat, end: nat) {
    exists c :: c in chunks && Inside(c, offset, end)
  }

  /** No two chunks of a tiled blob hold the same non-empty range. */
  lemma {:induction false} InsideIsUnique(chunks: seq<ChunkRef>, base: nat, stop: nat, i: nat, j: nat,
                                          offset: nat, end: nat)
    requires Tiles(chunks, base, stop) && offset < end && i < |chunks| && j < |chunks|
    requires Inside(chunks[i], offset, end) && Inside(chunks[j], offset, end)
    ensures i == j
    decreases |chunks|
  {
    if i > 0 && j > 0 {
      InsideIsUnique(chunks[1..], base + chunks[0].len, stop, i - 1, j - 1, offset, end);
    } else {
      TilesStartAfter(chunks[1..], base + chunks[0].len, stop);
      assert forall k :: 0 < k < |chunks| ==> chunks[k] in chunks[1..];
    }
  }

  /** A range inside one chunk overlaps that chunk, and no other. */
  lemma InsideIsOverlap(chunks: seq<ChunkRef>, stop: nat, i: nat, offset: nat, end: nat)
    requires Tiles(chunks, 0, stop) && offset < end && i < |chunks| && Inside(chunks[i], offset, end)
    ensures forall c :: c in Overlapping(chunks, offset, end) <==> c == chunks[i]
  {
    OverlappingIff(chunks, 0, stop, offset, end);
    TilesAreHashes(chunks, 0, stop);
    forall c | c in chunks && c.offset < end && offset < c.offset + c.len ensures c == chunks[i] {
      var j :| 0 <= j < |chunks| && chunks[j] == c;
      var at := if offset < c.offset then c.offset else offset;
      TilesStartAfter(chunks, 0, stop);
      InsideIsUnique(chunks, 0, stop, i, j, at, at + 1);
    }
  }

  lemma {:induction false} OverlappingIff(chunks: seq<ChunkRef>, base: nat, stop: nat, offset: nat, end: nat)
    requires Tiles(chunks, base, stop)
    ensures forall c :: c in Overlapping(chunks, offset, end) <==>
              c in chunks && c.offset < end && offset < c.offset + c.len
    decreases |chunks|
  {
    if chunks != [] {
      OverlappingIff(chunks[1..], base + chunks[0].len, stop, offset, end);
      TilesStartAfter(chunks, base, stop);
      assert chunks == [chunks[0]] + chunks[1..];
    }
  }

  lemma {:induction false} TilesStartAfter(chunks: seq<ChunkRef>, base: nat, stop: nat)
    requires Tiles(chunks, base, stop)
    ensures forall c :: c in chunks ==> base <= c.offset
    decreases |chunks|
  {
    if chunks != [] {
      TilesStartAfter(chunks[1..], base + chunks[0].len, stop);
    }
  }

  /** A chunk's place in the blob holds its piece. */
  lemma {:induction false} PieceInPlace(H: Bytes -> string, chunks: seq<ChunkRef>, pieces: seq<Bytes>,
                                        base: nat, stop: nat, i: nat)
    requires Tiles(chunks, base, stop) && Describes(H, chunks, pieces) && i < |chunks|
    ensures base <= chunks[i].offset && chunks[i].offset - base + chunks[i].len <= |Concat(pieces)|
    ensures Concat(pieces)[chunks[i].offset - base..chunks[i].offset - base + chunks[i].len] == pieces[i]
    decreases |chunks|
  {
    if i == 0 {
      assert Concat(pieces)[..|pieces[0]|] == pieces[0];
    } else {
      PieceInPlace(H, chunks[1..], pieces[1..], base + chunks[0].len, stop, i - 1);
      var rest, at := Concat(pieces[1..]), chunks[i].offset - base;
      assert Concat(pieces)[at..at + chunks[i].len] == rest[at - |pieces[0]|..at - |pieces[0]| + chunks[i].len];
    }
  }

  lemma SliceOfSlice(data: Bytes, lo: nat, hi: nat, from: nat, to: nat)
    requires lo <= hi <= |data| && from <= to <= hi - lo
    ensures data[lo..hi][from..to] == data[lo + from..lo + to]
  {
    var part := data[lo..hi];
    forall j | 0 <= j < to - from ensures part[from..to][j] == data[lo + from..lo + to][j] {
    }
  }

  /** A range inside one chunk, taken from the piece. */
  lemma RangeInsidePiece(H: Bytes -> string, m: Manifest, pieces: seq<Bytes>, i: nat, offset: nat, end: nat)
    requires Tiles(m.chunks, 0, m.totalSize) && Describes(H, m.chunks, pieces)
    requires i < |m.chunks| && Inside(m.chunks[i], offset, end) && offset <= end
    ensures var c := m.chunks[i];
      && end - c.offset <= |pieces[i]| && end <= |Concat(pieces)|
      && pieces[i][offset - c.offset..end - c.offset] == Concat(pieces)[offset..end]
  {
    PieceInPlace(H, m.chunks, pieces, 0, m.totalSize, i);
    var c, data := m.chunks[i], Concat(pieces);
    SliceOfSlice(data, c.offset, c.offset + c.len, offset - c.offset, end - c.offset);
  }
}
