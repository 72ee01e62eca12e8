/** `pad`, `unpad` and `unpad_in_place` of crypto-core/src/nip44.rs. */
module Nip44Pad {
  import opened Wrappers
  import opened ByteStrings
  import opened Nip44Padding

  /** The last `n` big-endian bytes of a number, and the number that bytes stand for. */
  function BigEndian(v: nat, n: nat): (r: Bytes)
    ensures |r| == n
  {
    if n == 0 then [] else BigEndian(v / 256, n - 1) + [v % 256]
  }

  function BigEndianValue(b: Bytes): nat {
    if b == [] then 0 else 256 * BigEndianValue(b[..|b| - 1]) + b[|b| - 1]
  }

  function Zeros(n: nat): Bytes {
    seq(n, _ => 0)
  }

  /** The length prefix.  A length that does not fit 32 bits is truncated (`len as u32`). */
  function EncodePrefix(len: nat): (r: Bytes)
    ensures |r| == if len >= EXTENDED_PREFIX_THRESHOLD then PREFIX_LEN_EXTENDED else PREFIX_LEN_SMALL
  {
    if len >= EXTENDED_PREFIX_THRESHOLD then [0, 0] + BigEndian(len % U32_SIZE, 4)
    else BigEndian(len, 2)
  }

  function DecodePrefix(padded: Bytes): Result<(nat, nat), string> {
    if |padded| < 2 then Err("padded payload too short")
    else
      var firstTwo := BigEndianValue(padded[..2]);
      if firstTwo == 0 then
        if |padded| < PREFIX_LEN_EXTENDED then Err("padded payload too short")
        else
          var len := BigEndianValue(padded[2..6]);
          if len < EXTENDED_PREFIX_THRESHOLD then Err("invalid extended padding length")
          else Ok((len, PREFIX_LEN_EXTENDED))
      else Ok((firstTwo, PREFIX_LEN_SMALL))
  }

  /** Prefix, plaintext and zeros. */
  function Padded(plaintext: Bytes): Bytes
    requires plaintext != []
  {
    PaddingBounds(|plaintext|);
    EncodePrefix(|plaintext|) + plaintext + Zeros(CalcPadding(|plaintext|) - |plaintext|)
  }

  function Unpad(padded: Bytes): Result<Bytes, string> {
    if |padded| < PREFIX_LEN_SMALL + 32 then Err("padded payload too short")
    else match DecodePrefix(padded)
      case Err(e) => Err(e)
      case Ok((unpaddedLen, prefixLen)) =>
        if unpaddedLen == 0 then Err("empty plaintext")
        else if |padded| != prefixLen + CalcPadding(unpaddedLen) then Err("invalid padding")
        else
          PaddingBounds(unpaddedLen);
          Ok(padded[prefixLen..prefixLen + unpaddedLen])
  }

  method Pad(plaintext: Bytes) returns (r: Result<Bytes, string>)
    ensures r == if plaintext == [] then Err("empty plaintext") else Ok(Padded(plaintext))
  {
    if plaintext == [] {
      return Err("empty plaintext");
    }
    PaddingBounds(|plaintext|);
    var take := CalcPadding(|plaintext|) - |plaintext|;
    var out := EncodePrefix(|plaintext|);
    out := out + plaintext;
    out := out + Zeros(take);
    return Ok(out);
  }

  /** The variant that shortens the buffer it is given agrees with `unpad` on every input. */
  method UnpadInPlace(buffer: Bytes) returns (r: Result<Bytes, string>)
    ensures r == Unpad(buffer)
  {
    hide CalcPadding;
    var padded := buffer;
    if |padded| < PREFIX_LEN_SMALL + 32 {
      return Err("padded payload too short");
    }
    var prefix := DecodePrefix(padded);
    if prefix.Err? {
      return Err(prefix.error);
    }
    var (unpaddedLen, prefixLen) := prefix.value;
    if unpaddedLen == 0 {
      return Err("empty plaintext");
    }
    if |padded| != prefixLen + CalcPadding(unpaddedLen) {
      return Err("invalid padding");
    }
    PaddingBounds(unpaddedLen);
    padded := padded[prefixLen..];
    padded := padded[..unpaddedLen];
    assert padded == buffer[prefixLen..prefixLen + unpaddedLen];
    return Ok(padded);
  }

  // ---------------------------------------------------------------------------------------------
  // Round trip
  // ---------------------------------------------------------------------------------------------

  function Power256(n: nat): nat {
    if n == 0 then 1 else 256 * Power256(n - 1)
  }

  lemma {:induction false} ValueOfBigEndian(v: nat, n: nat)
    requires v < Power256(n)
    ensures BigEndianValue(BigEndian(v, n)) == v
  {
    if n > 0 {
      ValueOfBigEndian(v / 256, n - 1);
      assert BigEndian(v, n)[..n - 1] == BigEndian(v / 256, n - 1);
    }
  }

  lemma {:induction false} BigEndianOfValue(b: Bytes)
    ensures BigEndianValue(b) < Power256(|b|) && BigEndian(BigEndianValue(b), |b|) == b
  {
    if b != [] {
      var front, last := b[..|b| - 1], b[|b| - 1];
      BigEndianOfValue(front);
      LastByte(BigEndianValue(front), last);
      assert b == front + [last];
    }
  }

  lemma LastByte(high: nat, last: byte)
    ensures (256 * high + last) / 256 == high && (256 * high + last) % 256 == last
  {
  }

  lemma Powers256()
    ensures Power256(2) == 65_536 && Power256(4) == U32_SIZE
  {
    assert Power256(3) == 16_777_216;
  }

  /** What the decoder makes of an encoded prefix, for any length. */
  lemma DecodeOfPrefix(b: Bytes, len: nat)
    requires EncodePrefix(len) <= b && len > 0
    ensures DecodePrefix(b) ==
      if len < EXTENDED_PREFIX_THRESHOLD then Ok((len, PREFIX_LEN_SMALL))
      else if len % U32_SIZE < EXTENDED_PREFIX_THRESHOLD then Err("invalid extended padding length")
      else Ok((len % U32_SIZE, PREFIX_LEN_EXTENDED))
  {
    hide BigEndian, BigEndianValue;
    var prefix := EncodePrefix(len);
    Powers256();
    assert b[..|prefix|] == prefix;
    if len < EXTENDED_PREFIX_THRESHOLD {
      ValueOfBigEndian(len, 2);
    } else {
      ValueOfBigEndian(len % U32_SIZE, 4);
      ValueOfZeros();
      assert b[..2] == prefix[..2] == [0, 0];
      assert b[2..6] == prefix[2..6] == BigEndian(len % U32_SIZE, 4);
    }
  }

  lemma ValueOfZeros()
    ensures BigEndianValue([0, 0]) == 0
  {
    var zeros: Bytes := [0, 0];
    assert zeros[..1] == [0];
  }

  /** The two forms of the prefix are told apart. */
  lemma PrefixRoundTrip(b: Bytes, len: nat)
    requires 0 < len < U32_SIZE && EncodePrefix(len) <= b
    ensures DecodePrefix(b) == Ok((len, |EncodePrefix(len)|))
  {
    DecodeOfPrefix(b, len);
  }

  /** The prefix in figures: big-endian, two bytes below 65,536, else four more after two zeros. */
  lemma PrefixInFigures(len: nat)
    ensures var b := EncodePrefix(len);
      if len < 65_536 then |b| == 2 && b[0] as int * 256 + b[1] as int == len
      else |b| == 6 && b[0] == 0 && b[1] == 0
           && b[2] as int * 16_777_216 + b[3] as int * 65_536 + b[4] as int * 256 + b[5] as int
              == len % 4_294_967_296
  {
    Powers256();
    if len < 65_536 {
      ValueOfBigEndian(len, 2);
      ValueOfTwo(BigEndian(len, 2));
    } else {
      var w := BigEndian(len % U32_SIZE, 4);
      ValueOfBigEndian(len % U32_SIZE, 4);
      ValueOfTwo(w[..2]);
      ValueOfTwo(w);
      assert w[..3][..2] == w[..2];
    }
  }

  lemma ValueOfTwo(b: Bytes)
    requires |b| >= 2
    ensures BigEndianValue(b) == 65_536 * BigEndianValue(b[..|b| - 2]) + 256 * b[|b| - 2] as int + b[|b| - 1] as int
  {
    assert b[..|b| - 1][..|b| - 2] == b[..|b| - 2];
  }

  /** Prefixes are canonical: a decoded prefix is the encoding of the length it decodes to. */
  lemma DecodedPrefixIsCanonical(b: Bytes, len: nat, n: nat)
    requires DecodePrefix(b) == Ok((len, n))
    ensures 0 < len < U32_SIZE && n <= |b| && EncodePrefix(len) == b[..n]
  {
    hide BigEndian, BigEndianValue;
    Powers256();
    BigEndianOfValue(b[..2]);
    if n == 6 {
      BigEndianOfValue(b[2..6]);
      BigEndianOfZero();
      assert b[..2] == [0, 0];
      assert b[..6] == b[..2] + b[2..6];
    }
  }

  lemma BigEndianOfZero()
    ensures BigEndian(0, 2) == [0, 0]
  {
    assert BigEndian(0, 1) == [0];
  }

  /** Exactly the plaintexts whose length fits 32 bits survive padding and unpadding. */
  lemma PadUnpadRoundTrip(p: Bytes)
    requires p != []
    ensures Unpad(Padded(p)) == Ok(p) <==> |p| < U32_SIZE
  {
    hide CalcPadding;
    PaddingBounds(|p|);
    if |p| < U32_SIZE {
      PrefixRoundTrip(Padded(p), |p|);
    } else {
      OversizeIsRefused(p);
    }
  }

  /** A longer plaintext is padded under a truncated length, and never unpadded to anything. */
  lemma OversizeIsRefused(p: Bytes)
    requires |p| >= U32_SIZE
    ensures Unpad(Padded(p)).Err?
  {
    hide CalcPadding, EncodePrefix, DecodePrefix;
    var b := Padded(p);
    PaddingBounds(|p|);
    DecodeOfPrefix(b, |p|);
    var len := |p| % U32_SIZE;
    if len >= EXTENDED_PREFIX_THRESHOLD {
      PaddingOfU32(len);
    }
  }

  lemma PaddingOfU32(len: nat)
    requires 32 < len < U32_SIZE
    ensures CalcPadding(len) <= U32_SIZE
  {
    hide CalcPadding;
    var k := Log2RoundDown(len - 1);
    assert Pow2(8) == 256;
    assert Pow2(16) == 0x1_0000;
    assert Pow2(24) == 0x100_0000;
    assert Pow2(31) == 0x8000_0000;
    if k > 31 {
      Pow2Apart(31, k);
    }
    if k < 31 {
      Pow2Apart(k, 31);
    }
    PaddingBelowPower(len);
  }

  /**
   * What `unpad` accepts, and with what answer: the blobs that agree with the padded plaintext in
   * size, prefix and plaintext.  The padding bytes themselves are not inspected.
   */
  lemma UnpadAccepts(b: Bytes, p: Bytes)
    ensures Unpad(b) == Ok(p) <==>
              0 < |p| < U32_SIZE && |b| == |Padded(p)| && EncodePrefix(|p|) + p <= b
  {
    if p != [] {
      PaddingBounds(|p|);
    }
    if Unpad(b) == Ok(p) {
      AcceptedBlob(b);
    }
    if 0 < |p| < U32_SIZE && |b| == |Padded(p)| && EncodePrefix(|p|) + p <= b {
      BlobIsAccepted(b, p);
    }
  }

  lemma AcceptedBlob(b: Bytes)
    requires Unpad(b).Ok?
    ensures var p := Unpad(b).value;
      0 < |p| < U32_SIZE && |b| == |Padded(p)| && EncodePrefix(|p|) + p <= b
  {
    hide CalcPadding, EncodePrefix, DecodePrefix;
    var (len, n) := DecodePrefix(b).value;
    DecodedPrefixIsCanonical(b, len, n);
    PaddingBounds(len);
    var p := Unpad(b).value;
    assert p == b[n..n + len];
    assert b[..n + len] == EncodePrefix(|p|) + p;
  }

  lemma BlobIsAccepted(b: Bytes, p: Bytes)
    requires 0 < |p| < U32_SIZE && EncodePrefix(|p|) + p <= b
    requires |b| == |EncodePrefix(|p|)| + CalcPadding(|p|)
    ensures Unpad(b) == Ok(p)
  {
    hide CalcPadding, EncodePrefix, DecodePrefix;
    PaddingBounds(|p|);
    var prefix := EncodePrefix(|p|);
    assert prefix == (prefix + p)[..|prefix|];
    PrefixRoundTrip(b, |p|);
    assert b[|prefix|..|prefix| + |p|] == (prefix + p)[|prefix|..] == p;
  }
}
