/**
 * Chunk framing of BLE sync payloads, mesh-core/src/ble.rs: `i:count:piece` lines in base64.
 * Payloads are ASCII, so characters and bytes coincide; base64 is a parameter.
 */
module Ble {
  import opened Arithmetic
  import opened Wrappers
  import Lru

  const DEFAULT_MTU: nat := 23
  const MAX_MTU: nat := 512
  const MAX_PAYLOAD_BYTES: nat := 65_536
  const MAX_CHUNKS: nat := 4096
  const USIZE_MAX: nat := 0xFFFF_FFFF_FFFF_FFFF

  datatype Codec = Codec(encode: string -> string, decode: string -> Option<string>)

  /** Standard base64: decoding undoes encoding, and three bytes take four characters. */
  ghost predicate Base64(c: Codec) {
    forall s :: c.decode(c.encode(s)) == Some(s) && |c.encode(s)| == 4 * ((|s| + 2) / 3)
  }

  function Max(a: nat, b: nat): nat {
    if a < b then b else a
  }

  function ChunkSize(mtu: nat): (r: nat)
    ensures 20 <= r <= 509
    ensures 23 <= mtu <= 512 ==> r + 3 == mtu
    ensures (mtu < 23 ==> r == 20) && (mtu > 512 ==> r == 509)
  {
    var m := if mtu < DEFAULT_MTU then DEFAULT_MTU else if mtu > MAX_MTU then MAX_MTU else mtu;
    Max(m - 3, 20)
  }

  // ---------------------------------------------------------------------------------------------
  // Decimal numbers
  // ---------------------------------------------------------------------------------------------

  function Digit(d: nat): char
    requires d < 10
  {
    '0' + d as char
  }

  function Decimal(n: nat): string {
    if n < 10 then [Digit(n)] else Decimal(n / 10) + [Digit(n % 10)]
  }

  predicate AllDigits(s: string) {
    forall i :: 0 <= i < |s| ==> '0' <= s[i] <= '9'
  }

  function DigitsValue(s: string): nat
    requires AllDigits(s)
  {
    if s == [] then 0 else 10 * DigitsValue(s[..|s| - 1]) + (s[|s| - 1] - '0') as nat
  }

  /** `str::parse::<usize>`: an optional plus sign, at least one digit, no overflow. */
  function ParseUsize(s: string): Option<nat> {
    var digits := if s != [] && s[0] == '+' then s[1..] else s;
    if digits == [] || !AllDigits(digits) || DigitsValue(digits) > USIZE_MAX then None
    else Some(DigitsValue(digits))
  }

  lemma {:induction false} DecimalRoundTrip(n: nat)
    ensures Decimal(n) != [] && AllDigits(Decimal(n)) && DigitsValue(Decimal(n)) == n
  {
    if n < 10 {
      assert [Digit(n)][..0] == [];
    } else {
      DecimalRoundTrip(n / 10);
      assert Decimal(n)[..|Decimal(n)| - 1] == Decimal(n / 10);
    }
  }

  lemma ParseDecimal(n: nat)
    requires n <= USIZE_MAX
    ensures ParseUsize(Decimal(n)) == Some(n) && ':' !in Decimal(n)
  {
    DecimalRoundTrip(n);
  }

  lemma DecimalIsShort(n: nat)
    requires n < 10_000
    ensures |Decimal(n)| <= 4
  {
    if n >= 10 {
      assert |Decimal(n / 1000)| == 1;
      assert n >= 100 ==> |Decimal(n / 100)| <= 2;
      assert |Decimal(n / 10)| <= 3;
    }
  }

  // ---------------------------------------------------------------------------------------------
  // Lines
  // ---------------------------------------------------------------------------------------------

  /** The position of the first colon, or the length. */
  function FirstColon(s: string): (i: nat)
    ensures i <= |s| && (i < |s| ==> s[i] == ':') && forall j :: 0 <= j < i ==> s[j] != ':'
  {
    if s == [] || s[0] == ':' then 0 else 1 + FirstColon(s[1..])
  }

  /** `splitn(3, ':')`, when it yields three parts. */
  function SplitThree(s: string): Option<(string, string, string)> {
    var i := FirstColon(s);
    if i == |s| then None
    else
      var rest := s[i + 1..];
      var j := FirstColon(rest);
      if j == |rest| then None else Some((s[..i], rest[..j], rest[j + 1..]))
  }

  datatype Frame = Frame(index: nat, count: nat, data: string)

  /** One line, decoded and checked on its own. */
  function ParseLine(c: Codec, line: string): Option<Frame> {
    if |line| > MAX_MTU * 4 then None
    else match c.decode(line)
      case None => None
      case Some(text) =>
        match SplitThree(text)
        case None => None
        case Some((index, count, data)) =>
          match (ParseUsize(index), ParseUsize(count))
          case (Some(i), Some(n)) =>
            if n == 0 || n > MAX_CHUNKS || |data| > MAX_MTU then None else Some(Frame(i, n, data))
          case _ => None
  }

  function LineText(index: nat, count: nat, piece: string): string {
    Decimal(index) + ":" + Decimal(count) + ":" + piece
  }

  lemma SplitLine(a: string, b: string, rest: string)
    requires ':' !in a && ':' !in b
    ensures SplitThree(a + ":" + b + ":" + rest) == Some((a, b, rest))
  {
    var s := a + ":" + b + ":" + rest;
    FirstColonAt(s, |a|);
    var tail := b + ":" + rest;
    assert s[..|a|] == a && s[|a| + 1..] == tail;
    FirstColonAt(tail, |b|);
    assert tail[..|b|] == b && tail[|b| + 1..] == rest;
  }

  lemma FirstColonAt(s: string, i: nat)
    requires i < |s| && s[i] == ':' && forall j :: 0 <= j < i ==> s[j] != ':'
    ensures FirstColon(s) == i
  {
  }

  /** Indices and counts: decimal digits, at least one, after an optional plus sign, below 2^64. */
  lemma ParseUsizeIff(s: string, n: nat)
    ensures ParseUsize(s) == Some(n) <==>
      exists digits :: (s == digits || s == "+" + digits) && digits != [] && AllDigits(digits)
                       && DigitsValue(digits) == n && n < 0x1_0000_0000_0000_0000
  {
    if ParseUsize(s) == Some(n) {
      var digits := if s != [] && s[0] == '+' then s[1..] else s;
      assert s == digits || s == "+" + digits;
    }
    if digits :| (s == digits || s == "+" + digits) && digits != [] && AllDigits(digits)
                 && DigitsValue(digits) == n && n < 0x1_0000_0000_0000_0000 {
      assert s == "+" + digits ==> s[1..] == digits;
      assert s == digits ==> s[0] != '+';
    }
  }

  /** What a line must look like to be read: three parts, the first two of them numbers, within the limits. */
  lemma ParsedLineIff(c: Codec, line: string, f: Frame)
    ensures ParseLine(c, line) == Some(f) <==>
      && |line| <= 2048 && 1 <= f.count <= 4096 && |f.data| <= 512
      && exists a, b :: ':' !in a && ':' !in b && c.decode(line) == Some(a + ":" + b + ":" + f.data)
                        && ParseUsize(a) == Some(f.index) && ParseUsize(b) == Some(f.count)
  {
    hide ParseUsize;
    if ParseLine(c, line) == Some(f) {
      var text := c.decode(line).value;
      var (a, b, data) := SplitThree(text).value;
      PartsOf(text);
      assert c.decode(line) == Some(a + ":" + b + ":" + data);
    }
    if a, b :| ':' !in a && ':' !in b && c.decode(line) == Some(a + ":" + b + ":" + f.data)
               && ParseUsize(a) == Some(f.index) && ParseUsize(b) == Some(f.count) {
      SplitLine(a, b, f.data);
    }
  }

  lemma PartsOf(s: string)
    requires SplitThree(s).Some?
    ensures var (a, b, rest) := SplitThree(s).value;
      ':' !in a && ':' !in b && s == a + ":" + b + ":" + rest
  {
    hide FirstColon;
    var i := FirstColon(s);
    var tail := s[i + 1..];
    var j := FirstColon(tail);
    CutAtColon(s);
    CutAtColon(tail);
    Regrouped(s[..i], tail[..j], tail[j + 1..]);
  }

  lemma CutAtColon(s: string)
    ensures var i := FirstColon(s);
      i < |s| ==> ':' !in s[..i] && s == s[..i] + ":" + s[i + 1..]
  {
  }

  lemma Regrouped(a: string, b: string, rest: string)
    ensures a + ":" + (b + ":" + rest) == a + ":" + b + ":" + rest
  {
  }

  /** The text of a line: index, count and piece, in this order, the numbers in decimal. */
  lemma LineIsInOrder(index: nat, count: nat, piece: string) returns (a: string, b: string)
    ensures LineText(index, count, piece) == a + ":" + b + ":" + piece
    ensures a != [] && b != [] && AllDigits(a) && AllDigits(b)
    ensures DigitsValue(a) == index && DigitsValue(b) == count
  {
    a, b := Decimal(index), Decimal(count);
    DecimalRoundTrip(index);
    DecimalRoundTrip(count);
  }

  lemma DigitsExample()
    ensures AllDigits("4096") && DigitsValue("4096") == 4096
  {
    var s := "4096";
    assert s[..3] == "409" && s[..3][..2] == "40" && "40"[..1] == "4" && "4"[..0] == "";
  }

  /** A line of the splitter is read back as written, if the count is within the limit, else refused. */
  lemma ParseOwnLine(c: Codec, index: nat, count: nat, piece: string)
    requires Base64(c) && index < count <= USIZE_MAX && |piece| <= 509
    ensures ParseLine(c, c.encode(LineText(index, count, piece)))
         == if count <= 4096 then Some(Frame(index, count, piece)) else None
  {
    var text := LineText(index, count, piece);
    ParseDecimal(index);
    ParseDecimal(count);
    SplitLine(Decimal(index), Decimal(count), piece);
    if count <= MAX_CHUNKS {
      DecimalIsShort(index);
      DecimalIsShort(count);
      assert |text| <= 519;
    }
  }

  // ---------------------------------------------------------------------------------------------
  // Splitting
  // ---------------------------------------------------------------------------------------------

  /** `chars.chunks(size)`. */
  function Pieces(data: string, size: nat): seq<string>
    requires size > 0
    decreases |data|
  {
    if data == [] then []
    else if |data| <= size then [data]
    else [data[..size]] + Pieces(data[size..], size)
  }

  function Lines(c: Codec, pieces: seq<string>): (r: seq<string>)
    ensures |r| == |pieces|
  {
    seq(|pieces|, i requires 0 <= i < |pieces| => c.encode(LineText(i, |pieces|, pieces[i])))
  }

  function DivCeil(n: nat, d: nat): nat
    requires d > 0
  {
    (n + d - 1) / d
  }

  method SplitChunks(c: Codec, data: string, mtu: nat) returns (lines: seq<string>)
    ensures lines == Lines(c, Pieces(data, ChunkSize(mtu)))
  {
    var size := ChunkSize(mtu);
    var count := DivCeil(|data|, size);
    PieceCount(data, size);
    ghost var pieces := Pieces(data, size);
    lines := [];
    var rest := data;
    while rest != []
      invariant |lines| <= |pieces| && Pieces(rest, size) == pieces[|lines|..]
      invariant lines == Lines(c, pieces)[..|lines|]
      decreases |rest|
    {
      var n := if |rest| < size then |rest| else size;
      var piece := rest[..n];
      assert piece == pieces[|lines|];
      lines := lines + [c.encode(LineText(|lines|, count, piece))];
      rest := rest[n..];
    }
  }

  lemma {:induction false} PieceCount(data: string, size: nat)
    requires size > 0
    ensures |Pieces(data, size)| == DivCeil(|data|, size)
    decreases |data|
  {
    if |data| > size {
      PieceCount(data[size..], size);
      DivStep(|data| - 1, size);
    } else if data != [] {
      DivUnique(|data| + size - 1, size, 1, |data| - 1);
    } else {
      DivUnique(size - 1, size, 0, size - 1);
    }
  }

  /** Every piece but the last is full. */
  lemma {:induction false} PiecesAreFull(data: string, size: nat)
    requires size > 0
    ensures forall i :: 0 <= i < |Pieces(data, size)| - 1 ==> |Pieces(data, size)[i]| == size
    decreases |data|
  {
    if |data| > size {
      PiecesAreFull(data[size..], size);
    }
  }

  function Concat(pieces: seq<string>): string {
    if pieces == [] then [] else pieces[0] + Concat(pieces[1..])
  }

  lemma {:induction false} PiecesConcat(data: string, size: nat)
    requires 0 < size
    ensures Concat(Pieces(data, size)) == data
    decreases |data|
  {
    if |data| > size {
      var head, tail := data[..size], data[size..];
      PiecesConcat(tail, size);
      assert Pieces(data, size) == [head] + Pieces(tail, size);
      assert Concat([head] + Pieces(tail, size)) == head + Concat(Pieces(tail, size)) by {
        assert ([head] + Pieces(tail, size))[1..] == Pieces(tail, size);
      }
      assert data == head + tail;
    } else if data != [] {
      assert Pieces(data, size)[1..] == [];
    }
  }

  lemma {:induction false} PiecesFit(data: string, size: nat)
    requires 0 < size
    ensures forall p :: p in Pieces(data, size) ==> 0 < |p| <= size
    ensures |Pieces(data, size)| <= |data| && (data != [] ==> Pieces(data, size) != [])
    decreases |data|
  {
    if |data| > size {
      PiecesFit(data[size..], size);
    }
  }

  // ---------------------------------------------------------------------------------------------
  // Reassembly
  // ---------------------------------------------------------------------------------------------

  function Parsed(c: Codec, lines: seq<string>): (r: seq<Option<Frame>>)
    ensures |r| == |lines|
  {
    seq(|lines|, i requires 0 <= i < |lines| => ParseLine(c, lines[i]))
  }

  function DataLen(frames: seq<Option<Frame>>): nat {
    if frames == [] then 0
    else
      var f := frames[|frames| - 1];
      DataLen(frames[..|frames| - 1]) + if f.Some? then |f.value.data| else 0
  }

  /** Indices are exactly 0 to count - 1, once each, under one count, within the size cap. */
  ghost predicate Complete(frames: seq<Option<Frame>>) {
    && frames != []
    && (forall i :: 0 <= i < |frames| ==>
          frames[i].Some? && frames[i].value.count == |frames| && frames[i].value.index < |frames|)
    && DistinctIndices(frames)
    && DataLen(frames) <= 131_072
  }

  ghost predicate DistinctIndices(frames: seq<Option<Frame>>) {
    forall i, j :: 0 <= i < j < |frames| && frames[i].Some? && frames[j].Some? ==>
      frames[i].value.index != frames[j].value.index
  }

  /** The data by index. */
  function Table(frames: seq<Option<Frame>>): map<nat, string> {
    if frames == [] then map[]
    else
      var before, f := Table(frames[..|frames| - 1]), frames[|frames| - 1];
      if f.Some? then before[f.value.index := f.value.data] else before
  }

  /** The data of indices 0 to n - 1 joined, if all are present. */
  function Joined(table: map<nat, string>, n: nat): Option<string> {
    if n == 0 then Some([])
    else match Joined(table, n - 1)
      case None => None
      case Some(s) => if n - 1 in table then Some(s + table[n - 1]) else None
  }

  method ReassembleChunks(c: Codec, lines: seq<string>) returns (r: Option<string>)
    ensures r.Some? <==> Complete(Parsed(c, lines))
    ensures r.Some? ==> r == Joined(Table(Parsed(c, lines)), |lines|)
  {
    hide ParseLine, Joined, Complete, DistinctIndices, Table, DataLen;
    ghost var frames := Parsed(c, lines);
    var table: map<nat, string> := map[];
    var declared: Option<nat> := None;
    var totalLen := 0;
    NoFrames(frames);
    for i := 0 to |lines|
      invariant declared.None? <==> i == 0
      invariant forall j :: 0 <= j < i ==> frames[j].Some? && Some(frames[j].value.count) == declared
      invariant DistinctIndices(frames[..i]) && |table| == i && table == Table(frames[..i])
      invariant totalLen == DataLen(frames[..i]) <= MAX_PAYLOAD_BYTES * 2
    {
      var frame := ParseLine(c, lines[i]);
      if frame.None? {
        Incomplete(frames, i);
        return None;
      }
      OneMoreFrame(frames, i);
      var Frame(index, count, data) := frame.value;
      if declared.Some? && declared.value != count {
        DifferentCounts(frames, i - 1, i);
        return None;
      }
      declared := Some(count);
      totalLen := totalLen + |data|;
      if totalLen > MAX_PAYLOAD_BYTES * 2 {
        Incomplete(frames, i);
        return None;
      }
      if index in table {
        Incomplete(frames, i);
        return None;
      }
      table := table[index := data];
    }
    assert frames[..|lines|] == frames;
    if declared.None? {
      return None;
    }
    var count := declared.value;
    if count == 0 || |table| != count {
      DifferentCounts(frames, 0, 0);
      return None;
    }
    r := JoinAll(table, count);
    if r.Some? {
      CoveringIsComplete(frames);
    } else {
      CompleteCovers(frames);
    }
  }

  lemma NoFrames(frames: seq<Option<Frame>>)
    ensures DistinctIndices([]) && Table([]) == map[] && DataLen([]) == 0
    ensures frames[..0] == [] && (frames == [] ==> !Complete(frames))
  {
  }

  /** What one more readable frame adds. */
  lemma OneMoreFrame(frames: seq<Option<Frame>>, i: nat)
    requires i < |frames| && (forall j :: 0 <= j <= i ==> frames[j].Some?) && DistinctIndices(frames[..i])
    ensures var f := frames[i].value;
      && Table(frames[..i + 1]) == Table(frames[..i])[f.index := f.data]
      && DataLen(frames[..i + 1]) == DataLen(frames[..i]) + |f.data|
      && (f.index !in Table(frames[..i]) <==> DistinctIndices(frames[..i + 1]))
  {
    var f := frames[i].value;
    assert frames[..i + 1][..i] == frames[..i];
    TableSize(frames[..i]);
    if f.index in Table(frames[..i]) {
      TableHas(frames[..i], f.index);
      var j :| 0 <= j < i && frames[..i][j].value.index == f.index;
      assert frames[..i + 1][j].value.index == frames[..i + 1][i].value.index;
    } else {
      var before, after := frames[..i], frames[..i + 1];
      forall j | 0 <= j < |before| ensures after[j] == before[j] && before[j].value.index != f.index {
        assert before[j].value.index in Table(before);
      }
    }
  }

  /** One unreadable line, one repeated index or too much data spoils the set. */
  lemma Incomplete(frames: seq<Option<Frame>>, i: nat)
    requires i < |frames|
    requires frames[i].None? || !DistinctIndices(frames[..i + 1]) || DataLen(frames[..i + 1]) > MAX_PAYLOAD_BYTES * 2
    ensures !Complete(frames)
  {
    DataLenGrows(frames, i + 1);
    var prefix := frames[..i + 1];
    assert forall j :: 0 <= j < |prefix| ==> prefix[j] == frames[j];
  }

  lemma DifferentCounts(frames: seq<Option<Frame>>, i: nat, j: nat)
    requires i < |frames| && j < |frames| && frames[i].Some? && frames[j].Some?
    requires frames[i].value.count != frames[j].value.count || frames[i].value.count != |frames|
    ensures !Complete(frames)
  {
  }

  method JoinAll(table: map<nat, string>, count: nat) returns (r: Option<string>)
    ensures r == Joined(table, count)
    ensures r.Some? <==> forall k :: 0 <= k < count ==> k in table
  {
    var out := [];
    for i := 0 to count
      invariant Some(out) == Joined(table, i)
      invariant forall k :: 0 <= k < i ==> k in table
    {
      if i !in table {
        JoinedNeeds(table, count, i);
        return None;
      }
      out := out + table[i];
    }
    return Some(out);
  }

  lemma {:induction false} JoinedNeeds(table: map<nat, string>, n: nat, k: nat)
    requires k < n && k !in table
    ensures Joined(table, n) == None
  {
    if k < n - 1 {
      JoinedNeeds(table, n - 1, k);
    }
  }

  lemma {:induction false} DataLenGrows(frames: seq<Option<Frame>>, i: nat)
    requires i <= |frames|
    ensures DataLen(frames[..i]) <= DataLen(frames)
    decreases |frames|
  {
    if i < |frames| {
      DataLenGrows(frames[..|frames| - 1], i);
      assert frames[..|frames| - 1][..i] == frames[..i];
    } else {
      assert frames[..i] == frames;
    }
  }

  lemma {:induction false} TableHas(frames: seq<Option<Frame>>, k: nat)
    requires k in Table(frames)
    ensures exists j :: 0 <= j < |frames| && frames[j].Some? && frames[j].value.index == k
                        && frames[j].value.data == Table(frames)[k]
  {
    var f := frames[|frames| - 1];
    if !(f.Some? && f.value.index == k) {
      TableHas(frames[..|frames| - 1], k);
    }
  }

  lemma {:induction false} TableSize(frames: seq<Option<Frame>>)
    requires (forall i :: 0 <= i < |frames| ==> frames[i].Some?) && DistinctIndices(frames)
    ensures |Table(frames)| == |frames|
    ensures forall i :: 0 <= i < |frames| ==>
              frames[i].value.index in Table(frames) && Table(frames)[frames[i].value.index] == frames[i].value.data
  {
    if frames != [] {
      var before := frames[..|frames| - 1];
      TableSize(before);
      if frames[|frames| - 1].value.index in Table(before) {
        TableHas(before, frames[|frames| - 1].value.index);
      }
    }
  }

  function Range(n: nat): (r: set<nat>)
    ensures forall k: nat :: k in r <==> k < n
    ensures |r| == n
  {
    if n == 0 then {} else Range(n - 1) + {n - 1}
  }

  lemma SameSize(a: set<nat>, b: set<nat>)
    requires a <= b && |a| == |b|
    ensures a == b
  {
    assert b == a + (b - a);
  }

  /** In a complete set of frames no index is missing. */
  lemma CompleteCovers(frames: seq<Option<Frame>>)
    ensures Complete(frames) ==> Table(frames).Keys == Range(|frames|)
  {
    if Complete(frames) {
      TableSize(frames);
      forall k | k in Table(frames) ensures k < |frames| {
        TableHas(frames, k);
      }
      SameSize(Table(frames).Keys, Range(|frames|));
    }
  }

  lemma CoveringIsComplete(frames: seq<Option<Frame>>)
    requires frames != [] && DistinctIndices(frames) && DataLen(frames) <= MAX_PAYLOAD_BYTES * 2
    requires forall i :: 0 <= i < |frames| ==> frames[i].Some? && frames[i].value.count == |frames|
    requires forall k :: 0 <= k < |frames| ==> k in Table(frames)
    ensures Complete(frames)
  {
    TableSize(frames);
    assert Range(|frames|) <= Table(frames).Keys;
    SameSize(Range(|frames|), Table(frames).Keys);
    forall i | 0 <= i < |frames| ensures frames[i].value.index < |frames| {
      assert frames[i].value.index in Table(frames).Keys;
    }
  }

  // ---------------------------------------------------------------------------------------------
  // Round trip
  // ---------------------------------------------------------------------------------------------

  /** The payloads that the reassembler can accept. */
  predicate WithinLimits(data: string, size: nat)
    requires size > 0
  {
    data != [] && |data| <= 131_072 && |Pieces(data, size)| <= 4096
  }

  /** The lines `lines` are all from the split of `pieces`, the j-th being line `at[j]` of it. */
  ghost predicate Drawn(c: Codec, pieces: seq<string>, lines: seq<string>, at: seq<nat>) {
    && |at| == |lines|
    && forall j :: 0 <= j < |lines| ==>
         at[j] < |pieces| && ParseLine(c, lines[j]) == Some(Frame(at[j], |pieces|, pieces[at[j]]))
  }

  lemma OwnLinesAreDrawn(c: Codec, pieces: seq<string>, lines: seq<string>) returns (at: seq<nat>)
    requires Base64(c) && |pieces| <= MAX_CHUNKS && (forall p :: p in pieces ==> |p| <= 509)
    requires forall l :: l in lines ==> l in Lines(c, pieces)
    ensures Drawn(c, pieces, lines, at)
    ensures forall j :: 0 <= j < |lines| ==> lines[j] == Lines(c, pieces)[at[j]]
  {
    hide ParseLine, LineText;
    at := [];
    for j := 0 to |lines|
      invariant Drawn(c, pieces, lines[..j], at)
      invariant forall k :: 0 <= k < j ==> lines[k] == Lines(c, pieces)[at[k]]
    {
      assert lines[j] in lines;
      var i :| 0 <= i < |pieces| && Lines(c, pieces)[i] == lines[j];
      ParseOwnLine(c, i, |pieces|, pieces[i]);
      at := at + [i];
    }
    assert lines[..|lines|] == lines;
  }

  /** A complete set drawn from a split joins to the payload. */
  lemma DrawnJoins(c: Codec, pieces: seq<string>, lines: seq<string>, at: seq<nat>)
    requires Drawn(c, pieces, lines, at) && Complete(Parsed(c, lines))
    ensures |lines| == |pieces|
    ensures Joined(Table(Parsed(c, lines)), |lines|) == Some(Concat(pieces))
  {
    hide ParseLine;
    var frames := Parsed(c, lines);
    var table := Table(frames);
    assert frames[0].value.count == |frames|;
    CompleteCovers(frames);
    forall k: nat | k < |pieces| ensures k in table && table[k] == pieces[k] {
      assert k in table.Keys;
      TableHas(frames, k);
    }
    JoinedPieces(table, pieces, |pieces|);
    assert pieces[..|pieces|] == pieces;
  }

  lemma {:induction false} JoinedPieces(table: map<nat, string>, pieces: seq<string>, n: nat)
    requires n <= |pieces| && forall k: nat :: k < n ==> k in table && table[k] == pieces[k]
    ensures Joined(table, n) == Some(Concat(pieces[..n]))
  {
    if n > 0 {
      JoinedPieces(table, pieces, n - 1);
      ConcatAppend(pieces[..n - 1], pieces[n - 1]);
      assert pieces[..n] == pieces[..n - 1] + [pieces[n - 1]];
    }
  }

  lemma {:induction false} ConcatAppend(a: seq<string>, x: string)
    ensures Concat(a + [x]) == Concat(a) + x
  {
    if a != [] {
      assert (a + [x])[1..] == a[1..] + [x];
      ConcatAppend(a[1..], x);
    } else {
      assert (a + [x])[1..] == [];
    }
  }

  lemma {:induction false} DataLenAppend(a: seq<Option<Frame>>, b: seq<Option<Frame>>)
    ensures DataLen(a + b) == DataLen(a) + DataLen(b)
    decreases |b|
  {
    if b == [] {
      assert a + b == a;
    } else {
      assert (a + b)[..|a + b| - 1] == a + b[..|b| - 1];
      DataLenAppend(a, b[..|b| - 1]);
    }
  }

  /** The total size does not depend on the order of the lines. */
  lemma {:induction false} DataLenOfPermutation(c: Codec, a: seq<string>, b: seq<string>)
    requires multiset(a) == multiset(b)
    ensures DataLen(Parsed(c, a)) == DataLen(Parsed(c, b))
    decreases |a|
  {
    hide ParseLine, DataLen, Parsed, Without;
    assert |multiset(a)| == |a| && |multiset(b)| == |b|;
    if a == [] {
      assert a == b;
    } else {
      var x := a[|a| - 1];
      assert x in multiset(a) && x in multiset(b);
      var k: nat :| k < |b| && b[k] == x;
      var a', b' := Without(a, |a| - 1), Without(b, k);
      TakeOut(a, |a| - 1);
      TakeOut(b, k);
      DataLenOfPermutation(c, a', b');
      DataLenTakeOut(c, a, |a| - 1);
      DataLenTakeOut(c, b, k);
    }
  }

  function Without(s: seq<string>, k: nat): (r: seq<string>)
    requires k < |s|
    ensures |r| == |s| - 1
  {
    s[..k] + s[k + 1..]
  }

  lemma TakeOut(s: seq<string>, k: nat)
    requires k < |s|
    ensures multiset(Without(s, k)) == multiset(s) - multiset{s[k]}
  {
    assert s == s[..k] + [s[k]] + s[k + 1..];
  }

  lemma DataLenTakeOut(c: Codec, s: seq<string>, k: nat)
    requires k < |s|
    ensures DataLen(Parsed(c, s)) == DataLen(Parsed(c, Without(s, k))) + DataLen(Parsed(c, [s[k]]))
  {
    hide ParseLine;
    var l, x, r := Parsed(c, s[..k]), Parsed(c, [s[k]]), Parsed(c, s[k + 1..]);
    assert Parsed(c, s) == l + (x + r);
    assert Parsed(c, Without(s, k)) == l + r;
    DataLenAppend(l, x + r);
    DataLenAppend(x, r);
    DataLenAppend(l, r);
  }

  lemma {:induction false} DataLenOfSplit(c: Codec, pieces: seq<string>, lines: seq<string>, at: seq<nat>, n: nat)
    requires n <= |lines| == |pieces| && Drawn(c, pieces, lines, at)
    requires forall j :: 0 <= j < |at| ==> at[j] == j
    ensures DataLen(Parsed(c, lines)[..n]) == |Concat(pieces[..n])|
  {
    hide ParseLine;
    if n > 0 {
      DataLenOfSplit(c, pieces, lines, at, n - 1);
      assert Parsed(c, lines)[..n][..n - 1] == Parsed(c, lines)[..n - 1];
      ConcatAppend(pieces[..n - 1], pieces[n - 1]);
      assert pieces[..n] == pieces[..n - 1] + [pieces[n - 1]];
    }
  }

  lemma {:induction false} MultisetOfDistinct(s: seq<string>, x: string)
    requires Lru.Distinct(s)
    ensures multiset(s)[x] == if x in s then 1 else 0
  {
    if s != [] {
      var before := s[..|s| - 1];
      assert s == before + [s[|s| - 1]];
      MultisetOfDistinct(before, x);
    }
  }

  /** Distinct sequences of one length, one within the other, are permutations of each other. */
  lemma DistinctPermutation(a: seq<string>, b: seq<string>)
    requires Lru.Distinct(a) && Lru.Distinct(b) && |a| == |b| && forall x :: x in a ==> x in b
    ensures multiset(a) == multiset(b)
  {
    var sa, sb := (set x | x in a), (set x | x in b);
    Lru.DistinctSize(a, sa);
    Lru.DistinctSize(b, sb);
    assert sb == sa + (sb - sa);
    forall x ensures multiset(a)[x] == multiset(b)[x] {
      MultisetOfDistinct(a, x);
      MultisetOfDistinct(b, x);
      assert x in sa <==> x in sb;
    }
  }

  lemma CountedTwice(s: seq<string>, i: nat, j: nat)
    requires i < j < |s| && s[i] == s[j]
    ensures multiset(s)[s[i]] >= 2
  {
    assert s == s[..i] + [s[i]] + s[i + 1..j] + [s[j]] + s[j + 1..];
  }

  lemma PermutationIsDistinct(a: seq<string>, b: seq<string>)
    requires Lru.Distinct(b) && multiset(a) == multiset(b)
    ensures Lru.Distinct(a) && |a| == |b|
  {
    assert |a| == |multiset(a)| && |b| == |multiset(b)|;
    forall i, j | 0 <= i < j < |a| ensures a[i] != a[j] {
      MultisetOfDistinct(b, a[i]);
      if a[i] == a[j] {
        CountedTwice(a, i, j);
      }
    }
  }

  // ---------------------------------------------------------------------------------------------
  // Main results
  // ---------------------------------------------------------------------------------------------

  /** The lines of a split carry their own positions. */
  lemma OwnLinesAt(c: Codec, pieces: seq<string>, at: seq<nat>)
    requires Base64(c) && |pieces| <= MAX_CHUNKS && (forall p :: p in pieces ==> |p| <= 509)
    requires |at| == |pieces| && forall j :: 0 <= j < |at| ==> at[j] == j
    ensures Drawn(c, pieces, Lines(c, pieces), at)
  {
    hide ParseLine, LineText;
    forall i | 0 <= i < |pieces|
      ensures ParseLine(c, Lines(c, pieces)[i]) == Some(Frame(i, |pieces|, pieces[i]))
    {
      assert pieces[i] in pieces;
      ParseOwnLine(c, i, |pieces|, pieces[i]);
    }
  }

  lemma DrawnApart(c: Codec, pieces: seq<string>, lines: seq<string>, at: seq<nat>)
    requires Drawn(c, pieces, lines, at)
    requires forall j :: 0 <= j < |at| ==> at[j] == j
    ensures Lru.Distinct(lines)
  {
    hide ParseLine;
  }

  /** The lines of a split are distinct, and none is refused. */
  lemma OwnLines(c: Codec, data: string, size: nat)
    requires Base64(c) && 0 < size <= 509 && WithinLimits(data, size)
    ensures Lru.Distinct(Lines(c, Pieces(data, size)))
    ensures Complete(Parsed(c, Lines(c, Pieces(data, size))))
    ensures DataLen(Parsed(c, Lines(c, Pieces(data, size)))) == |data|
  {
    hide ParseLine, LineText, DataLen, Complete, Pieces;
    var pieces := Pieces(data, size);
    var lines := Lines(c, pieces);
    var at := seq(|pieces|, i requires 0 <= i < |pieces| => i);
    PiecesFit(data, size);
    PiecesConcat(data, size);
    OwnLinesAt(c, pieces, at);
    DrawnApart(c, pieces, lines, at);
    DataLenOfSplit(c, pieces, lines, at, |lines|);
    assert Parsed(c, lines)[..|lines|] == Parsed(c, lines) && pieces[..|lines|] == pieces;
    DistinctDrawn(c, pieces, lines, at);
  }

  /**
   * Of lines taken from one split, a set is accepted exactly when it is a permutation of the whole
   * split (none missing, none repeated), and then it joins to the payload.
   */
  lemma AcceptedIffPermutation(c: Codec, data: string, mtu: nat, lines: seq<string>)
    requires Base64(c) && WithinLimits(data, ChunkSize(mtu))
    requires forall l :: l in lines ==> l in Lines(c, Pieces(data, ChunkSize(mtu)))
    ensures Complete(Parsed(c, lines)) <==> multiset(lines) == multiset(Lines(c, Pieces(data, ChunkSize(mtu))))
    ensures Complete(Parsed(c, lines)) ==> Joined(Table(Parsed(c, lines)), |lines|) == Some(data)
  {
    hide ParseLine, LineText, Joined, Table, DataLen;
    var size := ChunkSize(mtu);
    var pieces := Pieces(data, size);
    var own := Lines(c, pieces);
    PiecesFit(data, size);
    PiecesConcat(data, size);
    OwnLines(c, data, size);
    var at := OwnLinesAreDrawn(c, pieces, lines);
    if Complete(Parsed(c, lines)) {
      DrawnJoins(c, pieces, lines, at);
      DrawnDistinct(c, pieces, lines, at);
      DistinctPermutation(lines, own);
    }
    if multiset(lines) == multiset(own) {
      PermutationIsDistinct(lines, own);
      DataLenOfPermutation(c, lines, own);
      DistinctDrawn(c, pieces, lines, at);
    }
  }

  lemma DrawnDistinct(c: Codec, pieces: seq<string>, lines: seq<string>, at: seq<nat>)
    requires Drawn(c, pieces, lines, at) && Complete(Parsed(c, lines))
    ensures Lru.Distinct(lines)
  {
    hide ParseLine;
    var frames := Parsed(c, lines);
    forall i, j | 0 <= i < j < |lines| ensures lines[i] != lines[j] {
      assert frames[i].value.index != frames[j].value.index;
    }
  }

  lemma DistinctDrawn(c: Codec, pieces: seq<string>, lines: seq<string>, at: seq<nat>)
    requires Drawn(c, pieces, lines, at) && Lru.Distinct(lines) && |lines| == |pieces| > 0
    requires forall j :: 0 <= j < |lines| ==> lines[j] == Lines(c, pieces)[at[j]]
    requires DataLen(Parsed(c, lines)) <= MAX_PAYLOAD_BYTES * 2
    ensures Complete(Parsed(c, lines))
  {
    hide ParseLine;
    forall i, j | 0 <= i < j < |lines| ensures at[i] != at[j] {
      assert lines[i] != lines[j];
    }
  }

  /** Exactly the payloads within the limits survive splitting and reassembly. */
  lemma SplitReassembleRoundTrip(c: Codec, data: string, mtu: nat)
    requires Base64(c) && |Pieces(data, ChunkSize(mtu))| <= USIZE_MAX
    ensures var frames := Parsed(c, Lines(c, Pieces(data, ChunkSize(mtu))));
      && (Complete(frames) <==> WithinLimits(data, ChunkSize(mtu)))
      && (Complete(frames) ==> Joined(Table(frames), |frames|) == Some(data))
  {
    hide ParseLine, LineText, Joined, Table, DataLen;
    var pieces := Pieces(data, ChunkSize(mtu));
    if WithinLimits(data, ChunkSize(mtu)) {
      AcceptedIffPermutation(c, data, mtu, Lines(c, pieces));
    } else if data != [] {
      BeyondLimits(c, data, ChunkSize(mtu));
    }
  }

  lemma BeyondLimits(c: Codec, data: string, size: nat)
    requires Base64(c) && 0 < size <= 509 && |Pieces(data, size)| <= USIZE_MAX
    requires data != [] && !WithinLimits(data, size)
    ensures !Complete(Parsed(c, Lines(c, Pieces(data, size))))
  {
    hide ParseLine, LineText, DataLen, Pieces;
    var pieces := Pieces(data, size);
    var lines := Lines(c, pieces);
    PiecesFit(data, size);
    PiecesConcat(data, size);
    if |pieces| <= MAX_CHUNKS {
      var at := seq(|pieces|, i requires 0 <= i < |pieces| => i);
      OwnLinesAt(c, pieces, at);
      DataLenOfSplit(c, pieces, lines, at, |lines|);
      assert Parsed(c, lines)[..|lines|] == Parsed(c, lines) && pieces[..|lines|] == pieces;
    } else {
      assert pieces[0] in pieces;
      ParseOwnLine(c, 0, |pieces|, pieces[0]);
      assert Parsed(c, lines)[0] == None;
    }
  }
}
