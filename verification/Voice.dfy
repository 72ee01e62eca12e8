/**
 * Voice notes, audio-core/src/voice.rs: an 8-byte magic, then packets with a 16-bit little-endian
 * length each.  The Opus encoder and decoder are parameters; both keep state, so each answers for
 * everything it has been given so far.
 */
module Voice {
  import opened Wrappers
  import opened ByteStrings

  const OPUS_SAMPLE_RATE: nat := 48_000
  const OPUS_FRAME_SIZE: nat := 960
  const OPUS_STREAM_MAGIC: Bytes := [0x53, 0x4F, 0x31, 0, 0, 0, 0, 0]
  const MAX_PACKET_LEN: nat := 4096
  const MAX_DECODE_INPUT_BYTES: nat := 4 * 1024 * 1024
  const MAX_DECODE_OUTPUT_SAMPLES: nat := 64 * 1024 * 1024
  const MAX_ENCODE_SAMPLES: nat := 48_000 * 600
  const SECONDS_PER_PACKET: real := OPUS_FRAME_SIZE as real / OPUS_SAMPLE_RATE as real

  type Samples = seq<int>

  /** What the last packet decodes to, after the packets before it. */
  datatype Decoder = Decoder(opens: bool, decode: seq<Bytes> -> Option<Samples>)

  /** The packet for the last frame, after the frames before it. */
  datatype Encoder = Encoder(opens: bool, encode: seq<Samples> -> Option<Bytes>)

  datatype Fault = TooLarge | NotVoice | NoCodec | TruncatedPrefix | InvalidLength | CodecFailed | TooLong

  // ---------------------------------------------------------------------------------------------
  // Framing
  // ---------------------------------------------------------------------------------------------

  predicate Sound(packet: Bytes) {
    1 <= |packet| <= 4096
  }

  predicate AllSound(packets: seq<Bytes>) {
    forall p :: p in packets ==> Sound(p)
  }

  /** `(n as u16).to_le_bytes()` and its inverse. */
  function LittleEndian(n: nat): Bytes {
    [n % 256, n / 256 % 256]
  }

  function LengthOf(low: byte, high: byte): nat {
    256 * high + low
  }

  function Framed(packets: seq<Bytes>): Bytes {
    if packets == [] then []
    else LittleEndian(|packets[0]|) + packets[0] + Framed(packets[1..])
  }

  /** The length of the packet at the front. */
  function Front(s: Bytes): (r: Result<nat, Fault>)
    requires s != []
    ensures r.Ok? ==> 0 < r.value <= MAX_PACKET_LEN && 2 + r.value <= |s|
  {
    if |s| < 2 then Err(TruncatedPrefix)
    else
      var len := LengthOf(s[0], s[1]);
      if len == 0 || len > MAX_PACKET_LEN || |s| - 2 < len then Err(InvalidLength) else Ok(len)
  }

  /** The packets ahead of the first fault, and that fault. */
  function Walk(s: Bytes): (r: (seq<Bytes>, Option<Fault>))
    decreases |s|
  {
    if s == [] then ([], None)
    else match Front(s)
      case Err(fault) => ([], Some(fault))
      case Ok(len) =>
        var (packets, fault) := Walk(s[2 + len..]);
        ([s[2..2 + len]] + packets, fault)
  }

  lemma LengthRoundTrip(n: nat)
    requires n < 0x1_0000
    ensures LengthOf(n % 256, n / 256 % 256) == n
  {
  }

  lemma FrontOfFramed(p: Bytes, tail: Bytes)
    requires |p| <= MAX_PACKET_LEN
    ensures Front(LittleEndian(|p|) + p + tail) == if p == [] then Err(InvalidLength) else Ok(|p|)
    ensures (LittleEndian(|p|) + p + tail)[2..2 + |p|] == p
    ensures (LittleEndian(|p|) + p + tail)[2 + |p|..] == tail
  {
    hide LengthOf;
    LengthRoundTrip(|p|);
    var s := LittleEndian(|p|) + p + tail;
    assert s[0] == LittleEndian(|p|)[0] && s[1] == LittleEndian(|p|)[1];
  }

  lemma WalkOn(p: Bytes, tail: Bytes)
    requires Sound(p)
    ensures Walk(LittleEndian(|p|) + p + tail) == ([p] + Walk(tail).0, Walk(tail).1)
  {
    FrontOfFramed(p, tail);
  }

  /** `Walk` in terms of a position in the whole stream. */
  lemma WalkAt(data: Bytes, pos: nat)
    requires pos <= |data|
    ensures pos == |data| ==> Walk(data[pos..]) == ([], None)
    ensures |data| - pos == 1 ==> Walk(data[pos..]) == ([], Some(TruncatedPrefix))
    ensures |data| - pos >= 2 ==>
      var len, next := LengthOf(data[pos], data[pos + 1]), pos + 2;
      if len == 0 || len > MAX_PACKET_LEN || |data| - next < len then
        Walk(data[pos..]) == ([], Some(InvalidLength))
      else
        && Walk(data[pos..]).0 == [data[next..next + len]] + Walk(data[next + len..]).0
        && Walk(data[pos..]).1 == Walk(data[next + len..]).1
  {
    hide LengthOf;
    var here := data[pos..];
    if |here| >= 2 && Front(here).Ok? {
      var len := Front(here).value;
      assert here[2..2 + len] == data[pos + 2..pos + 2 + len];
      assert here[2 + len..] == data[pos + 2 + len..];
    }
  }

  /** Framed packets followed by anything: the packets come first, then what the rest holds. */
  lemma {:induction false} WalkOfFramed(packets: seq<Bytes>, rest: Bytes)
    requires AllSound(packets)
    ensures Walk(Framed(packets) + rest) == (packets + Walk(rest).0, Walk(rest).1)
  {
    hide Walk, LittleEndian;
    if packets == [] {
      assert Framed(packets) + rest == rest;
      assert packets + Walk(rest).0 == Walk(rest).0;
    } else {
      var p, tail := packets[0], Framed(packets[1..]) + rest;
      assert p in packets && Framed(packets) + rest == LittleEndian(|p|) + p + tail;
      WalkOn(p, tail);
      WalkOfFramed(packets[1..], rest);
      assert [p] + (packets[1..] + Walk(rest).0) == packets + Walk(rest).0;
    }
  }

  /** The frame of a packet: its length, low byte first, then the packet. */
  lemma FrameInFigures(p: Bytes, packets: seq<Bytes>)
    requires |p| <= 4096
    ensures var s := Framed([p] + packets);
      && |s| >= 2 + |p| && s[0] as int + s[1] as int * 256 == |p|
      && s[2..2 + |p|] == p && s[2 + |p|..] == Framed(packets)
  {
    hide LittleEndian;
    FramedCons(p, packets);
    LowByteFirst(|p|);
    assert Framed([p] + packets)[..2] == LittleEndian(|p|);
  }

  lemma LowByteFirst(n: nat)
    requires n < 65_536
    ensures var b := LittleEndian(n); |b| == 2 && b[0] as int + b[1] as int * 256 == n
  {
  }

  lemma FramedNone()
    ensures Framed([]) == []
  {
  }

  /** A stream without a fault is the framing of the packets found in it, and those are sound. */
  lemma {:induction false} FaultlessIsFramed(s: Bytes)
    ensures AllSound(Walk(s).0)
    ensures Walk(s).1 == None ==> s == Framed(Walk(s).0)
    decreases |s|
  {
    hide LengthOf, LittleEndian, Framed;
    FramedNone();
    if s != [] && Front(s).Ok? {
      var len := Front(s).value;
      var p, tail := s[2..2 + len], s[2 + len..];
      FaultlessIsFramed(tail);
      LengthIsSpelled(s[0], s[1]);
      assert s == [s[0], s[1]] + p + tail;
      FramedCons(p, Walk(tail).0);
    }
  }

  lemma LengthIsSpelled(low: byte, high: byte)
    ensures LittleEndian(LengthOf(low, high)) == [low, high]
  {
  }

  lemma FramedCons(p: Bytes, packets: seq<Bytes>)
    ensures Framed([p] + packets) == LittleEndian(|p|) + p + Framed(packets)
  {
    assert ([p] + packets)[1..] == packets;
  }

  /** The faultless streams are exactly the framings, each of one list of packets only. */
  lemma WalkIffFramed(s: Bytes, packets: seq<Bytes>)
    ensures Walk(s) == (packets, None) <==> AllSound(packets) && s == Framed(packets)
  {
    FaultlessIsFramed(s);
    if AllSound(packets) {
      WalkOfFramed(packets, []);
      assert Framed(packets) + [] == Framed(packets);
      assert packets + [] == packets;
    }
  }

  lemma {:induction false} FramedAppend(packets: seq<Bytes>, p: Bytes)
    ensures Framed(packets + [p]) == Framed(packets) + LittleEndian(|p|) + p
  {
    if packets == [] {
      assert (packets + [p])[1..] == [];
    } else {
      assert (packets + [p])[1..] == packets[1..] + [p];
      FramedAppend(packets[1..], p);
    }
  }

  // ---------------------------------------------------------------------------------------------
  // Decoding
  // ---------------------------------------------------------------------------------------------

  /** The samples of the packets, until the codec fails or the cap is passed. */
  function Feed(dec: Decoder, packets: seq<Bytes>): Result<Samples, Fault> {
    if packets == [] then Ok([])
    else match Feed(dec, packets[..|packets| - 1])
      case Err(e) => Err(e)
      case Ok(out) =>
        match dec.decode(packets)
        case None => Err(CodecFailed)
        case Some(pcm) =>
          if |out| + |pcm| > MAX_DECODE_OUTPUT_SAMPLES then Err(TooLong) else Ok(out + pcm)
  }

  lemma {:induction false} FeedStops(dec: Decoder, packets: seq<Bytes>, k: nat)
    requires k <= |packets| && Feed(dec, packets[..k]).Err?
    ensures Feed(dec, packets) == Feed(dec, packets[..k])
    decreases |packets|
  {
    if k < |packets| {
      assert packets[..|packets| - 1][..k] == packets[..k];
      FeedStops(dec, packets[..|packets| - 1], k);
    } else {
      assert packets[..k] == packets;
    }
  }

  lemma FeedNone(dec: Decoder)
    ensures Feed(dec, []) == Ok([])
  {
  }

  lemma FeedOne(dec: Decoder, fed: seq<Bytes>, p: Bytes)
    requires Feed(dec, fed).Ok?
    ensures var (out, pcm) := (Feed(dec, fed).value, dec.decode(fed + [p]));
      Feed(dec, fed + [p])
      == if pcm.None? then Err(CodecFailed)
         else if |out| + |pcm.value| > 67_108_864 then Err(TooLong)
         else Ok(out + pcm.value)
  {
    assert (fed + [p])[..|fed|] == fed;
  }

  /** Whichever comes first, a packet that does not decode or a framing fault. */
  function Decoded(dec: Decoder, data: Bytes): Result<Samples, Fault> {
    if |data| > MAX_DECODE_INPUT_BYTES then Err(TooLarge)
    else if !dec.opens then Err(NoCodec)
    else
      var (packets, fault) := Walk(data);
      match (Feed(dec, packets), fault)
      case (Ok(_), Some(f)) => Err(f)
      case (r, _) => r
  }

  /** A packet that does not decode, or passes the cap, is reported even when the framing fails after it. */
  lemma FirstFailureWins(dec: Decoder, data: Bytes, k: nat)
    requires |data| <= 4_194_304 && dec.opens && k <= |Walk(data).0| && Feed(dec, Walk(data).0[..k]).Err?
    ensures Decoded(dec, data).Err? && Decoded(dec, data).error == Feed(dec, Walk(data).0[..k]).error
  {
    FeedStops(dec, Walk(data).0, k);
  }

  method DecodePackets(dec: Decoder, data: Bytes) returns (r: Result<Samples, Fault>)
    ensures r == Decoded(dec, data)
  {
    hide Feed, Walk, LengthOf;
    if |data| > MAX_DECODE_INPUT_BYTES {
      return Err(TooLarge);
    }
    if !dec.opens {
      return Err(NoCodec);
    }
    var out: Samples := [];
    var fed: seq<Bytes> := [];
    var pos := 0;
    ghost var all, fault := Walk(data).0, Walk(data).1;
    FeedNone(dec);
    assert data[0..] == data && all[0..] == all;
    while pos < |data|
      invariant pos <= |data| && Feed(dec, fed) == Ok(out)
      invariant |fed| <= |all| && fed == all[..|fed|] && Walk(data[pos..]) == (all[|fed|..], fault)
    {
      WalkAt(data, pos);
      if |data| - pos < 2 {
        assert fed == all;
        return Err(TruncatedPrefix);
      }
      var len := LengthOf(data[pos], data[pos + 1]);
      pos := pos + 2;
      if len == 0 || len > MAX_PACKET_LEN || |data| - pos < len {
        assert fed == all;
        return Err(InvalidLength);
      }
      var packet := data[pos..pos + len];
      pos := pos + len;
      FeedOne(dec, fed, packet);
      assert packet == all[|fed|..][0] && Walk(data[pos..]).0 == all[|fed|..][1..];
      fed := fed + [packet];
      var decoded := dec.decode(fed);
      if decoded.None? || |out| + |decoded.value| > MAX_DECODE_OUTPUT_SAMPLES {
        assert all[..|fed|] == fed;
        FeedStops(dec, all, |fed|);
        return Err(if decoded.None? then CodecFailed else TooLong);
      }
      out := out + decoded.value;
    }
    WalkAt(data, pos);
    assert fed == all;
    return Ok(out);
  }

  predicate IsOpusStream(data: Bytes) {
    |data| > |OPUS_STREAM_MAGIC| && data[..|OPUS_STREAM_MAGIC|] == OPUS_STREAM_MAGIC
  }

  function Seconds(packets: nat): real {
    packets as real * SECONDS_PER_PACKET
  }

  /** Twenty milliseconds a packet. */
  lemma SecondsInFigures(packets: nat)
    ensures Seconds(packets) == packets as real / 50.0
  {
    assert SECONDS_PER_PACKET == 1.0 / 50.0;
  }

  function Duration(data: Bytes): Result<real, Fault> {
    if |data| > MAX_DECODE_INPUT_BYTES then Err(TooLarge)
    else if !IsOpusStream(data) then Err(NotVoice)
    else match Walk(data[|OPUS_STREAM_MAGIC|..])
      case (_, Some(fault)) => Err(fault)
      case (packets, None) => Ok(Seconds(|packets|))
  }

  method VoiceDurationSecs(data: Bytes) returns (r: Result<real, Fault>)
    ensures r == Duration(data)
  {
    hide Walk, LengthOf;
    if |data| > MAX_DECODE_INPUT_BYTES {
      return Err(TooLarge);
    }
    if !IsOpusStream(data) {
      return Err(NotVoice);
    }
    var packets: nat := 0;
    var pos := |OPUS_STREAM_MAGIC|;
    ghost var found := Walk(data[pos..]);
    while pos < |data|
      invariant pos <= |data|
      invariant |found.0| == packets + |Walk(data[pos..]).0| && found.1 == Walk(data[pos..]).1
    {
      WalkAt(data, pos);
      if |data| - pos < 2 {
        return Err(TruncatedPrefix);
      }
      var len := LengthOf(data[pos], data[pos + 1]);
      pos := pos + 2;
      if len == 0 || len > MAX_PACKET_LEN || |data| - pos < len {
        return Err(InvalidLength);
      }
      pos := pos + len;
      packets := packets + 1;
    }
    WalkAt(data, pos);
    return Ok(Seconds(packets));
  }

  /**
   * A stream that decodes is timed, with the same packets, exactly when it is not empty and leaves
   * room for the magic under the size cap: the decoder applies the cap without the magic.
   */
  lemma DecodedIsTimed(dec: Decoder, s: Bytes)
    requires Decoded(dec, s).Ok?
    ensures s == Framed(Walk(s).0) && |s| <= 4_194_304
    ensures Duration(OPUS_STREAM_MAGIC + s).Ok? <==> 0 < |s| <= 4_194_304 - 8
    ensures Duration(OPUS_STREAM_MAGIC + s).Ok? ==>
              Duration(OPUS_STREAM_MAGIC + s) == Ok(|Walk(s).0| as real / 50.0)
  {
    hide Walk, Framed, Feed, Seconds;
    SecondsInFigures(|Walk(s).0|);
    FaultlessIsFramed(s);
    assert (OPUS_STREAM_MAGIC + s)[|OPUS_STREAM_MAGIC|..] == s;
  }

  /** What has a duration, and which: the magic and a framing of sound packets, within the size cap. */
  lemma DurationIff(data: Bytes, packets: seq<Bytes>)
    ensures Duration(data).Ok? ==> |data| >= 8 && Walk(data[8..]).1 == None
    ensures |data| >= 8 && Walk(data[8..]) == (packets, None) ==>
      (Duration(data) == Ok(|packets| as real / 50.0) <==>
         8 < |data| <= 4_194_304 && data[..8] == [0x53, 0x4F, 0x31, 0, 0, 0, 0, 0])
  {
    hide Walk, Seconds;
    SecondsInFigures(|packets|);
  }

  /** The input: 1024 packets of 4094 bytes fill the cap, so that the magic no longer fits under it. */
  lemma StreamAtCapIsNotTimed(dec: Decoder, packet: Bytes)
    requires dec.opens && (forall fed :: dec.decode(fed) == Some([])) && |packet| == 4094
    ensures Decoded(dec, Framed(Repeated(packet, 1024))) == Ok([])
    ensures Duration(OPUS_STREAM_MAGIC + Framed(Repeated(packet, 1024))) == Err(TooLarge)
  {
    hide Walk, Framed, Feed, Repeated;
    var packets := Repeated(packet, 1024);
    RepeatedLength(packet, 1024);
    WalkIffFramed(Framed(packets), packets);
    SilentFeed(dec, packets);
  }

  function Repeated(packet: Bytes, n: nat): seq<Bytes> {
    if n == 0 then [] else [packet] + Repeated(packet, n - 1)
  }

  lemma {:induction false} RepeatedLength(packet: Bytes, n: nat)
    requires |packet| == 4094
    ensures |Framed(Repeated(packet, n))| == 4096 * n && AllSound(Repeated(packet, n))
  {
    if n > 0 {
      RepeatedLength(packet, n - 1);
      FramedCons(packet, Repeated(packet, n - 1));
    }
  }

  lemma {:induction false} SilentFeed(dec: Decoder, packets: seq<Bytes>)
    requires forall fed :: dec.decode(fed) == Some([])
    ensures Feed(dec, packets) == Ok([])
  {
    if packets != [] {
      SilentFeed(dec, packets[..|packets| - 1]);
    }
  }

  // ---------------------------------------------------------------------------------------------
  // Encoding
  // ---------------------------------------------------------------------------------------------

  /** The full frames; a trailing part of one is dropped. */
  function FullFrames(pcm: Samples): (r: seq<Samples>)
    ensures |r| == |pcm| / OPUS_FRAME_SIZE
  {
    seq(|pcm| / OPUS_FRAME_SIZE, i requires 0 <= i < |pcm| / OPUS_FRAME_SIZE =>
      pcm[i * OPUS_FRAME_SIZE..(i + 1) * OPUS_FRAME_SIZE])
  }

  lemma FrameAt(pcm: Samples, i: nat)
    requires i < |pcm| / OPUS_FRAME_SIZE
    ensures |FullFrames(pcm)| == |pcm| / 960 && FullFrames(pcm)[i] == pcm[960 * i..960 * i + 960]
  {
  }

  /** The packets of the frames, if the encoder makes all of them and none is too big. */
  function Packets(enc: Encoder, frames: seq<Samples>): (r: Option<seq<Bytes>>)
    ensures r.Some? ==> |r.value| == |frames| && forall p :: p in r.value ==> |p| <= MAX_PACKET_LEN
  {
    if frames == [] then Some([])
    else match Packets(enc, frames[..|frames| - 1])
      case None => None
      case Some(before) =>
        match enc.encode(frames)
        case None => None
        case Some(p) => if |p| > MAX_PACKET_LEN then None else Some(before + [p])
  }

  lemma {:induction false} PacketsStop(enc: Encoder, frames: seq<Samples>, k: nat)
    requires k <= |frames| && Packets(enc, frames[..k]) == None
    ensures Packets(enc, frames) == None
    decreases |frames|
  {
    if k < |frames| {
      assert frames[..|frames| - 1][..k] == frames[..k];
      PacketsStop(enc, frames[..|frames| - 1], k);
    } else {
      assert frames[..k] == frames;
    }
  }

  lemma NoPackets(enc: Encoder)
    ensures Packets(enc, []) == Some([]) && Framed([]) == []
  {
  }

  lemma PacketsOne(enc: Encoder, given: seq<Samples>, frame: Samples)
    requires Packets(enc, given).Some?
    ensures var p := enc.encode(given + [frame]);
      Packets(enc, given + [frame])
      == if p.None? || |p.value| > 4096 then None else Some(Packets(enc, given).value + [p.value])
  {
    assert (given + [frame])[..|given|] == given;
  }

  method EncodeVoicePcm(enc: Encoder, pcm: Samples) returns (r: Result<Bytes, Fault>)
    ensures r.Ok? <==> |pcm| <= 28_800_000 && enc.opens && Packets(enc, FullFrames(pcm)).Some?
    ensures r.Ok? ==>
              r.value == [0x53, 0x4F, 0x31, 0, 0, 0, 0, 0] + Framed(Packets(enc, FullFrames(pcm)).value)
  {
    hide Packets, Framed, LittleEndian, FullFrames;
    if |pcm| > MAX_ENCODE_SAMPLES {
      return Err(TooLong);
    }
    if !enc.opens {
      return Err(NoCodec);
    }
    ghost var frames := FullFrames(pcm);
    var out := OPUS_STREAM_MAGIC;
    var given: seq<Samples> := [];
    NoPackets(enc);
    ghost var packets: seq<Bytes> := [];
    while |given| < |pcm| / OPUS_FRAME_SIZE
      invariant |given| <= |frames| && given == frames[..|given|]
      invariant Packets(enc, given) == Some(packets) && out == OPUS_STREAM_MAGIC + Framed(packets)
    {
      var at := |given| * OPUS_FRAME_SIZE;
      var chunk := pcm[at..at + OPUS_FRAME_SIZE];
      FrameAt(pcm, |given|);
      PacketsOne(enc, given, chunk);
      given := given + [chunk];
      var packet := enc.encode(given);
      if packet.None? || |packet.value| > MAX_PACKET_LEN {
        assert frames[..|given|] == given;
        PacketsStop(enc, frames, |given|);
        return Err(CodecFailed);
      }
      FramedAppend(packets, packet.value);
      packets := packets + [packet.value];
      out := out + LittleEndian(|packet.value|) + packet.value;
    }
    assert given == frames;
    return Ok(out);
  }

  /**
   * A recorded note is timed at one packet per full frame exactly when it has a frame, fits the
   * decoder's cap and the encoder made no empty packet.
   */
  lemma RecordedIsTimed(enc: Encoder, pcm: Samples)
    requires Packets(enc, FullFrames(pcm)).Some?
    ensures
      var packets := Packets(enc, FullFrames(pcm)).value;
      var data := OPUS_STREAM_MAGIC + Framed(packets);
      && (Duration(data).Ok? <==>
            |pcm| >= 960 && |data| <= 4_194_304 && [] !in packets)
      && (Duration(data).Ok? ==> Duration(data) == Ok((|pcm| / 960) as real / 50.0))
  {
    hide FullFrames, Packets, Framed, Duration, Seconds;
    var packets := Packets(enc, FullFrames(pcm)).value;
    assert |packets| == |pcm| / OPUS_FRAME_SIZE;
    assert packets != [] <==> |pcm| >= OPUS_FRAME_SIZE;
    DurationOfFramed(packets);
    SecondsInFigures(|pcm| / OPUS_FRAME_SIZE);
  }

  lemma DurationOfFramed(packets: seq<Bytes>)
    requires forall p :: p in packets ==> |p| <= MAX_PACKET_LEN
    ensures var data := OPUS_STREAM_MAGIC + Framed(packets);
      && (Duration(data).Ok? <==> packets != [] && |data| <= MAX_DECODE_INPUT_BYTES && [] !in packets)
      && (Duration(data).Ok? ==> Duration(data) == Ok(Seconds(|packets|)))
  {
    hide Framed, Walk;
    var s := Framed(packets);
    FramedIsLonger(packets);
    assert (OPUS_STREAM_MAGIC + s)[..|OPUS_STREAM_MAGIC|] == OPUS_STREAM_MAGIC;
    assert (OPUS_STREAM_MAGIC + s)[|OPUS_STREAM_MAGIC|..] == s;
    if [] in packets {
      EmptyPacketIsFault(packets);
    } else {
      assert AllSound(packets);
      WalkIffFramed(s, packets);
    }
  }

  lemma FramedIsLonger(packets: seq<Bytes>)
    ensures packets != [] <==> Framed(packets) != []
  {
  }

  lemma {:induction false} EmptyPacketIsFault(packets: seq<Bytes>)
    requires [] in packets && forall p :: p in packets ==> |p| <= MAX_PACKET_LEN
    ensures Walk(Framed(packets)).1 == Some(InvalidLength)
  {
    var p, tail := packets[0], Framed(packets[1..]);
    FrontOfFramed(p, tail);
    if p != [] {
      EmptyPacketIsFault(packets[1..]);
    }
  }
}
