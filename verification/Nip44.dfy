/**
 * The NIP-44 v2 envelope of crypto-core/src/nip44.rs: `2 || nonce || ciphertext || hmac`, its
 * shape test, and the routing between the v2 and the legacy decoder.  HMAC-SHA256, the ChaCha20
 * key stream, the legacy decoder and base64 are parameters.
 */
module Nip44 {
  import opened Wrappers
  import opened ByteStrings
  import opened Nip44Padding
  import opened Nip44Pad

  type Tag = t: Bytes | |t| == 32 witness Zeros(32)

  datatype Suite = Suite(
    hmac: (Bytes, Bytes) -> Tag,                  // key, message
    keyStream: (Bytes, Bytes, nat) -> byte,       // key, nonce, position
    legacy: (Bytes, Bytes) -> Result<Bytes, string>,
    toBase64: Bytes -> string,
    fromBase64: string -> Result<Bytes, string>
  )

  const INFO: Bytes := [110, 105, 112, 52, 52, 45, 118, 50]   // "nip44-v2"
  const VERSION: byte := 2
  const NONCE_LEN := 12

  // ---------------------------------------------------------------------------------------------
  // Message keys
  // ---------------------------------------------------------------------------------------------

  datatype Keys = Keys(enc: Bytes, nonce12: Bytes, auth: Bytes)

  function DeriveKeys(s: Suite, ck: Bytes, nonce: Bytes): (k: Keys)
    ensures |k.enc| == 32 && |k.nonce12| == 12 && |k.auth| == 32
  {
    var t1 := s.hmac(ck, nonce + [1]);
    var t2 := s.hmac(ck, t1 + nonce + [2]);
    var t3 := s.hmac(ck, t2 + nonce + [3]);
    Keys(t1, t2[..NONCE_LEN], t2[NONCE_LEN..] + t3[..NONCE_LEN])
  }

  function ConversationKey(s: Suite, key: Bytes): Bytes {
    s.hmac(INFO, key)
  }

  /** HKDF-Expand of section 2.3 of RFC 5869: T(1) | T(2) | ..., cut to the length asked for. */
  function ExpandBlock(s: Suite, prk: Bytes, info: Bytes, i: nat): Bytes
    requires i < 256
  {
    if i == 0 then [] else s.hmac(prk, ExpandBlock(s, prk, info, i - 1) + info + [i])
  }

  function ExpandBlocks(s: Suite, prk: Bytes, info: Bytes, n: nat): (r: Bytes)
    requires n < 256
    ensures |r| == 32 * n
  {
    if n == 0 then [] else ExpandBlocks(s, prk, info, n - 1) + ExpandBlock(s, prk, info, n)
  }

  /** The three keys are the 76 bytes of HKDF-Expand(ck, nonce), cut at 32 and 44. */
  lemma KeysAreHkdfExpand(s: Suite, ck: Bytes, nonce: Bytes)
    ensures var k := DeriveKeys(s, ck, nonce);
      k.enc + k.nonce12 + k.auth == ExpandBlocks(s, ck, nonce, 3)[..76]
  {
    var t1, t2, t3 := ExpandBlock(s, ck, nonce, 1), ExpandBlock(s, ck, nonce, 2), ExpandBlock(s, ck, nonce, 3);
    assert ExpandBlock(s, ck, nonce, 0) + nonce + [1] == nonce + [1];
    assert t2 == s.hmac(ck, t1 + nonce + [2]);
    assert t3 == s.hmac(ck, t2 + nonce + [3]);
    assert ExpandBlocks(s, ck, nonce, 1) == t1;
    assert ExpandBlocks(s, ck, nonce, 2) == t1 + t2;
    assert ExpandBlocks(s, ck, nonce, 3) == t1 + t2 + t3;
    assert |t1| == |t2| == |t3| == 32;
    var k := DeriveKeys(s, ck, nonce);
    assert k == Keys(t1, t2[..12], t2[12..] + t3[..12]);
    assert (t1 + t2 + t3)[..76] == t1 + (t2[..12] + t2[12..]) + t3[..12];
  }

  // ---------------------------------------------------------------------------------------------
  // The stream cipher
  // ---------------------------------------------------------------------------------------------

  /** Exclusive or of the lowest `n` bits. */
  function XorBits(a: nat, b: nat, n: nat): nat {
    if n == 0 then 0 else (a % 2 + b % 2) % 2 + 2 * XorBits(a / 2, b / 2, n - 1)
  }

  lemma XorStep(a: nat, b: nat, n: nat)
    ensures XorBits(a, b, n) == if n == 0 then 0 else (a % 2 + b % 2) % 2 + 2 * XorBits(a / 2, b / 2, n - 1)
  {
  }

  lemma {:induction false} XorBitsBounds(a: nat, b: nat, n: nat)
    ensures XorBits(a, b, n) < Pow2(n)
  {
    if n > 0 {
      XorBitsBounds(a / 2, b / 2, n - 1);
    }
  }

  lemma {:induction false} XorBitsTwice(a: nat, b: nat, n: nat)
    requires a < Pow2(n)
    ensures XorBits(XorBits(a, b, n), b, n) == a
  {
    XorStep(a, b, n);
    XorStep(XorBits(a, b, n), b, n);
    if n > 0 {
      hide XorBits;
      XorBitsTwice(a / 2, b / 2, n - 1);
      HalfAndBit((a % 2 + b % 2) % 2, XorBits(a / 2, b / 2, n - 1));
      SameBit(a % 2, b % 2);
    }
  }

  lemma HalfAndBit(bit: nat, rest: nat)
    requires bit < 2
    ensures (bit + 2 * rest) / 2 == rest && (bit + 2 * rest) % 2 == bit
  {
  }

  lemma SameBit(a: nat, b: nat)
    requires a < 2 && b < 2
    ensures ((a + b) % 2 + b) % 2 == a
  {
  }

  function Xor(a: byte, b: byte): byte {
    XorBitsBounds(a, b, 8);
    assert Pow2(8) == 256;
    XorBits(a, b, 8)
  }

  function ApplyKeyStream(s: Suite, k: Keys, data: Bytes): (r: Bytes)
    ensures |r| == |data|
  {
    seq<byte>(|data|, i requires 0 <= i < |data| => Xor(data[i], s.keyStream(k.enc, k.nonce12, i)))
  }

  lemma KeyStreamTwice(s: Suite, k: Keys, data: Bytes)
    ensures ApplyKeyStream(s, k, ApplyKeyStream(s, k, data)) == data
  {
    var once := ApplyKeyStream(s, k, data);
    forall i | 0 <= i < |data| ensures Xor(once[i], s.keyStream(k.enc, k.nonce12, i)) == data[i] {
      assert Pow2(8) == 256;
      XorBitsTwice(data[i], s.keyStream(k.enc, k.nonce12, i), 8);
    }
  }

  // ---------------------------------------------------------------------------------------------
  // Encryption and decryption
  // ---------------------------------------------------------------------------------------------

  /** The envelope around a given ciphertext. */
  function Envelope(s: Suite, k: Keys, nonce: Bytes, ciphertext: Bytes): Bytes {
    [VERSION] + nonce + ciphertext + s.hmac(k.auth, nonce + ciphertext)
  }

  function Sealed(s: Suite, plaintext: Bytes, key: Bytes, nonce: Bytes): Bytes
    requires plaintext != []
  {
    var k := DeriveKeys(s, ConversationKey(s, key), nonce);
    Envelope(s, k, nonce, ApplyKeyStream(s, k, Padded(plaintext)))
  }

  /** Encryption with the nonce drawn by the caller. */
  method Encrypt(s: Suite, plaintext: Bytes, key: Bytes, nonce: Tag) returns (r: Result<string, string>)
    ensures r == if plaintext == [] then Err("empty plaintext") else Ok(s.toBase64(Sealed(s, plaintext, key, nonce)))
  {
    hide CalcPadding, EncodePrefix, DeriveKeys, Xor;
    if plaintext == [] {
      return Err("empty plaintext");
    }
    var prefix := EncodePrefix(|plaintext|);
    var k := DeriveKeys(s, ConversationKey(s, key), nonce);
    PaddingBounds(|plaintext|);
    var paddedLen := CalcPadding(|plaintext|);
    var payload := [VERSION];
    payload := payload + nonce;
    var cipherStart := |payload|;
    payload := payload + prefix;
    payload := payload + plaintext;
    var take := paddedLen - |plaintext|;
    payload := payload + Zeros(take);
    assert payload[cipherStart..] == Padded(plaintext);
    assert payload[..cipherStart] == [VERSION] + nonce;

    payload := payload[..cipherStart] + ApplyKeyStream(s, k, payload[cipherStart..]);

    assert payload[cipherStart..] == ApplyKeyStream(s, k, Padded(plaintext));
    var mac := s.hmac(k.auth, nonce + payload[cipherStart..]);
    payload := payload + mac;
    assert payload == Sealed(s, plaintext, key, nonce);
    return Ok(s.toBase64(payload));
  }

  predicate IsSpecShape(decoded: Bytes) {
    || (|decoded| >= 67 + 32 && (|decoded| - 67) % 32 == 0)
    || (|decoded| >= 71 + EXTENDED_PREFIX_THRESHOLD && (|decoded| - 71) % 32 == 0)
  }

  function Open(s: Suite, decoded: Bytes, key: Bytes): Result<Bytes, string>
    requires decoded != []
  {
    if decoded[0] != VERSION then Err("unsupported payload version")
    else if |decoded| < 99 then Err("payload too short")
    else
      var nonce, buffer, mac := decoded[1..33], decoded[33..|decoded| - 32], decoded[|decoded| - 32..];
      var k := DeriveKeys(s, ConversationKey(s, key), nonce);
      if s.hmac(k.auth, nonce + buffer) != mac then Err("decrypt failed")
      else Unpad(ApplyKeyStream(s, k, buffer))
  }

  /** The v2 path, decrypting inside the buffer it is given. */
  method DecryptSpec(s: Suite, payload: Bytes, key: Bytes) returns (r: Result<Bytes, string>)
    requires payload != []
    ensures r == Open(s, payload, key)
  {
    hide CalcPadding, DeriveKeys, Unpad, Xor;
    var decoded := payload;
    if decoded[0] != VERSION {
      return Err("unsupported payload version");
    }
    if |decoded| < 1 + 32 + 2 + 32 + 32 {
      return Err("payload too short");
    }
    var payloadLen := |decoded|;
    var nonce := decoded[1..33];
    var buffer := decoded[33..payloadLen - 32];
    var mac := decoded[payloadLen - 32..];
    var k := DeriveKeys(s, ConversationKey(s, key), nonce);
    var expected := s.hmac(k.auth, nonce + buffer);
    if expected != mac {
      return Err("decrypt failed");
    }
    decoded := decoded[..33] + ApplyKeyStream(s, k, decoded[33..payloadLen - 32]) + decoded[payloadLen - 32..];
    decoded := decoded[..payloadLen - 32];
    decoded := decoded[33..];
    assert decoded == ApplyKeyStream(s, k, buffer);
    r := UnpadInPlace(decoded);
  }

  function Decrypted(s: Suite, payload: string, key: Bytes): Result<Bytes, string> {
    match s.fromBase64(payload)
    case Err(_) => Err("invalid base64")
    case Ok(decoded) =>
      if decoded == [] then Err("empty payload")
      else if decoded[0] == VERSION && IsSpecShape(decoded) then Open(s, decoded, key)
      else s.legacy(decoded, key)
  }

  method Decrypt(s: Suite, payload: string, key: Bytes) returns (r: Result<Bytes, string>)
    ensures r == Decrypted(s, payload, key)
  {
    hide Open, IsSpecShape;
    var decoded := s.fromBase64(payload);
    if decoded.Err? {
      return Err("invalid base64");
    }
    if decoded.value == [] {
      return Err("empty payload");
    }
    if decoded.value[0] == VERSION && IsSpecShape(decoded.value) {
      r := DecryptSpec(s, decoded.value, key);
    } else {
      r := s.legacy(decoded.value, key);
    }
  }

  // ---------------------------------------------------------------------------------------------
  // Main results
  // ---------------------------------------------------------------------------------------------

  ghost predicate Base64Decodes(s: Suite) {
    forall b :: s.fromBase64(s.toBase64(b)) == Ok(b)
  }

  lemma PaddedSize(p: Bytes)
    requires p != []
    ensures |Padded(p)| == |EncodePrefix(|p|)| + CalcPadding(|p|)
  {
    hide CalcPadding, EncodePrefix;
    PaddingBounds(|p|);
  }

  /** Everything `encrypt` produces has the exact v2 layout, whatever the plaintext's size. */
  lemma SealedHasSpecShape(s: Suite, p: Bytes, key: Bytes, nonce: Tag)
    requires p != []
    ensures var d := Sealed(s, p, key, nonce);
      d != [] && d[0] == VERSION && IsSpecShape(d) && |d| == 65 + |EncodePrefix(|p|)| + CalcPadding(|p|)
  {
    hide CalcPadding, DeriveKeys, ApplyKeyStream;
    PaddingBounds(|p|);
    PaddedSize(p);
  }

  /** Opening a sealed payload undoes both the cipher and the padding. */
  lemma OpenSealed(s: Suite, p: Bytes, key: Bytes, nonce: Tag)
    requires p != []
    ensures Sealed(s, p, key, nonce) != []
    ensures Open(s, Sealed(s, p, key, nonce), key) == Unpad(Padded(p))
  {
    hide CalcPadding, DeriveKeys, Unpad, Padded, ConversationKey;
    var d := Sealed(s, p, key, nonce);
    var k := DeriveKeys(s, ConversationKey(s, key), nonce);
    var c := ApplyKeyStream(s, k, Padded(p));
    PaddedSize(p);
    PaddingBounds(|p|);
    assert d[1..33] == nonce;
    assert d[33..|d| - 32] == c;
    assert d[|d| - 32..] == s.hmac(k.auth, nonce + c);
    KeyStreamTwice(s, k, Padded(p));
  }

  /** A payload of v2 shape never reaches the legacy decoder, not even when it fails to open. */
  lemma SpecShapeNeverFallsBack(s: Suite, legacy: (Bytes, Bytes) -> Result<Bytes, string>, d: Bytes, payload: string,
                                key: Bytes)
    requires s.fromBase64(payload) == Ok(d) && d != [] && d[0] == VERSION && IsSpecShape(d)
    ensures Decrypted(s, payload, key) == Decrypted(s.(legacy := legacy), payload, key)
  {
  }

  /**
   * Decryption recovers exactly the plaintexts whose length fits 32 bits.  It stays on the v2
   * path: with any other legacy decoder the answer is the same, also when it is an error.
   */
  lemma DecryptRecovers(s: Suite, p: Bytes, key: Bytes, nonce: Tag, legacy: (Bytes, Bytes) -> Result<Bytes, string>)
    requires Base64Decodes(s) && p != []
    ensures var payload := s.toBase64(Sealed(s, p, key, nonce));
      && (Decrypted(s, payload, key) == Ok(p) <==> |p| < U32_SIZE)
      && Decrypted(s.(legacy := legacy), payload, key) == Decrypted(s, payload, key)
  {
    hide Open, Sealed, Unpad, Padded, IsSpecShape, Decrypted;
    var d := Sealed(s, p, key, nonce);
    SealedHasSpecShape(s, p, key, nonce);
    SpecShapeIsOpened(s, d, s.toBase64(d), key);
    OpenSealed(s, p, key, nonce);
    PadUnpadRoundTrip(p);
    SpecShapeNeverFallsBack(s, legacy, d, s.toBase64(d), key);
  }

  lemma SpecShapeIsOpened(s: Suite, d: Bytes, payload: string, key: Bytes)
    requires s.fromBase64(payload) == Ok(d) && d != [] && d[0] == VERSION && IsSpecShape(d)
    ensures Decrypted(s, payload, key) == Open(s, d, key)
  {
  }

  /**
   * What opens was sealed: with the padding bytes zero it is the envelope of its plaintext under
   * its own nonce, and in any case its tag authenticates its nonce and ciphertext.
   */
  lemma OpenedWasSealed(s: Suite, d: Bytes, key: Bytes)
    requires d != [] && Open(s, d, key).Ok?
    ensures |d| >= 99 && d[0] == VERSION
    ensures var p, k := Open(s, d, key).value, DeriveKeys(s, ConversationKey(s, key), d[1..33]);
      && d == Envelope(s, k, d[1..33], d[33..|d| - 32])
      && 0 < |p| < U32_SIZE
      && |d| == |Sealed(s, p, key, d[1..33])|
      && (ApplyKeyStream(s, k, d[33..|d| - 32]) == Padded(p) ==> d == Sealed(s, p, key, d[1..33]))
  {
    hide CalcPadding, DeriveKeys, Unpad, Padded, ConversationKey, EncodePrefix;
    var p, k := Open(s, d, key).value, DeriveKeys(s, ConversationKey(s, key), d[1..33]);
    var c := d[33..|d| - 32];
    assert d == [d[0]] + d[1..33] + c + d[|d| - 32..];
    UnpadAccepts(ApplyKeyStream(s, k, c), p);
    KeyStreamTwice(s, k, c);
  }

  // ---------------------------------------------------------------------------------------------
  // The wire format in figures
  // ---------------------------------------------------------------------------------------------

  function Bit(a: nat, k: nat): nat {
    if k == 0 then a % 2 else Bit(a / 2, k - 1)
  }

  /** Bit by bit, `Xor` is the sum without carry. */
  lemma {:induction false} XorBitsAt(a: nat, b: nat, n: nat, k: nat)
    requires k < n
    ensures Bit(XorBits(a, b, n), k) == (Bit(a, k) + Bit(b, k)) % 2
  {
    XorStep(a, b, n);
    HalfAndBit((a % 2 + b % 2) % 2, XorBits(a / 2, b / 2, n - 1));
    if k > 0 {
      XorBitsAt(a / 2, b / 2, n - 1, k - 1);
    }
  }

  lemma XorIsBitwise(a: byte, b: byte, k: nat)
    requires k < 8
    ensures Bit(Xor(a, b), k) == (Bit(a, k) + Bit(b, k)) % 2
  {
    XorBitsAt(a, b, 8, k);
  }

  /**
   * Every byte of an encryption: version 2, the nonce, prefix, plaintext and zeros under the key
   * stream, and the tag over nonce and ciphertext; the keys are cut from
   * HKDF-Expand(HMAC("nip44-v2", key), nonce).
   */
  lemma SealedBytes(s: Suite, p: Bytes, key: Bytes, nonce: Tag)
    requires p != []
    ensures
      var d := Sealed(s, p, key, nonce);
      var t := ExpandBlocks(s, s.hmac([110, 105, 112, 52, 52, 45, 118, 50], key), nonce, 3);
      var padded := EncodePrefix(|p|) + p;
      |d| == 65 + |EncodePrefix(|p|)| + CalcPadding(|p|) && |padded| <= |d| - 65
      && d[0] == 2 && d[1..33] == nonce
      && (forall i :: 0 <= i < |d| - 65 ==>
            d[33 + i] == Xor(if i < |padded| then padded[i] else 0, s.keyStream(t[..32], t[32..44], i)))
      && d[|d| - 32..] == s.hmac(t[44..76], nonce + d[33..|d| - 32])
  {
    hide CalcPadding, EncodePrefix, DeriveKeys, ExpandBlocks, Xor;
    var k := DeriveKeys(s, ConversationKey(s, key), nonce);
    var t := ExpandBlocks(s, ConversationKey(s, key), nonce, 3);
    KeysAreHkdfExpand(s, ConversationKey(s, key), nonce);
    KeysAreCut(k, t);
    PaddingBounds(|p|);
    PaddedSize(p);
    var d, c := Sealed(s, p, key, nonce), ApplyKeyStream(s, k, Padded(p));
    assert d[33..|d| - 32] == c;
    assert d[1..33] == nonce && d[|d| - 32..] == s.hmac(k.auth, nonce + c);
    forall i | 0 <= i < |c| ensures d[33 + i] == c[i] {
    }
  }

  lemma KeysAreCut(k: Keys, t: Bytes)
    requires |k.enc| == 32 && |k.nonce12| == 12 && |k.auth| == 32 && |t| == 96
    requires k.enc + k.nonce12 + k.auth == t[..76]
    ensures k.enc == t[..32] && k.nonce12 == t[32..44] && k.auth == t[44..76]
  {
    var all := k.enc + k.nonce12 + k.auth;
    assert k.enc == all[..32] && k.nonce12 == all[32..44] && k.auth == all[44..76];
    assert t[..76][..32] == t[..32] && t[..76][32..44] == t[32..44] && t[..76][44..76] == t[44..76];
  }

  /**
   * Which decoder answers: the v2 one exactly for blobs that start with 2 and have the length of a
   * v2 blob with a short or a long prefix, the legacy one for all others.
   */
  lemma RoutedByShape(s: Suite, payload: string, d: Bytes, key: Bytes)
    ensures s.fromBase64(payload).Err? ==> Decrypted(s, payload, key) == Err("invalid base64")
    ensures s.fromBase64(payload) == Ok([]) ==> Decrypted(s, payload, key) == Err("empty payload")
    ensures s.fromBase64(payload) == Ok(d) && d != [] ==>
      var v2 := d[0] == 2 && exists k: nat {:trigger Small(k)} {:trigger Large(k)} ::
                  (k >= 1 && |d| == Small(k)) || (k >= 2048 && |d| == Large(k));
      Decrypted(s, payload, key) == if v2 then Open(s, d, key) else s.legacy(d, key)
  {
    hide Open, IsSpecShape;
    ShapeInFigures(d);
  }

  lemma ShapeInFigures(d: Bytes)
    ensures IsSpecShape(d) <==> exists k: nat {:trigger Small(k)} {:trigger Large(k)} ::
              (k >= 1 && |d| == Small(k)) || (k >= 2048 && |d| == Large(k))
  {
    var n := |d|;
    if n >= 99 && (n - 67) % 32 == 0 {
      var k := (n - 67) / 32;
      assert k >= 1 && n == Small(k);
    } else if IsSpecShape(d) {
      var k := (n - 71) / 32;
      assert k >= 2048 && n == Large(k);
    }
    forall k: nat | (k >= 1 && n == Small(k)) || (k >= 2048 && n == Large(k)) ensures IsSpecShape(d) {
      TimesRest(k);
    }
  }

  lemma TimesRest(k: nat)
    ensures (Small(k) - 67) % 32 == 0 && (Large(k) - 71) % 32 == 0
  {
  }

  function Small(k: nat): nat {
    67 + 32 * k
  }

  function Large(k: nat): nat {
    71 + 32 * k
  }

  /** What opens, and to what: the tag is right, and the ciphertext decrypts to a padded plaintext. */
  lemma OpensIff(s: Suite, d: Bytes, key: Bytes, p: Bytes)
    requires d != []
    ensures Open(s, d, key) == Ok(p) <==>
              && |d| >= 99 && d[0] == 2
              && var k := DeriveKeys(s, ConversationKey(s, key), d[1..33]);
                 var c := d[33..|d| - 32];
                 d[|d| - 32..] == s.hmac(k.auth, d[1..33] + c) && Unpad(ApplyKeyStream(s, k, c)) == Ok(p)
  {
    hide DeriveKeys, ConversationKey, Unpad, ApplyKeyStream;
  }
}
