/**
 One media stream of the mirroring session (optional/cast/MirrorSession.cpp): what sending a frame does
 to the wrapping counters and the cache, and what a whole run of frames puts on the wire.
 */
module MirrorStream {
  import opened Bytes
  import opened Arith
  import opened CastPackets
  import opened CastCrypto
  import opened CastReassembly
  import opened Rtcp
  import opened RetransmitCache

  type IvMask = s: bytes | |s| == 16 witness [0, 0, 0, 0, 0, 0, 0, 0, 0, 0, 0, 0, 0, 0, 0, 0]

  const MAX_PACKET_BYTES := 1400

  /** `references` tells video (delta frames name the previous frame) from audio (every frame is a key frame). */
  datatype StreamConfig = StreamConfig(
    ssrc: uint32, payloadType: byte, window: nat, references: bool, cipher: BlockCipher, ivMask: IvMask)

  /** An encoded frame, and the media clock ticks it advances. */
  datatype Input = Input(data: bytes, key: bool, ticks: uint32)

  datatype Stream = Stream(
    frameId: uint32, seqNo: uint16, timestamp: uint32, packetCount: uint32, octetCount: uint32, cache: Cache)

  const FRESH := Stream(0, 0, 0, 0, 0, EMPTY)

  // ------------------------------------------------------------------ one step, on the wrapping fields

  function MetaFor(cfg: StreamConfig, s: Stream, f: Input): FrameMeta {
    FrameMeta(cfg.ssrc, cfg.payloadType, s.seqNo, s.frameId % TWO_8, !cfg.references || f.key, s.timestamp,
              cfg.references && !f.key, if cfg.references then (s.frameId - 1) % TWO_32 % TWO_8 else 0)
  }

  function StepPackets(cfg: StreamConfig, s: Stream, f: Input): seq<bytes> {
    Packets(MetaFor(cfg, s, f), Encrypt(cfg.cipher, cfg.ivMask, s.frameId, f.data), MAX_PACKET_BYTES)
  }

  function Counted(s: Stream, packet: bytes): Stream {
    s.(seqNo := (s.seqNo + 1) % TWO_16, packetCount := (s.packetCount + 1) % TWO_32,
       octetCount := (s.octetCount + |packet|) % TWO_32)
  }

  function CountedAll(s: Stream, packets: seq<bytes>): Stream {
    if packets == [] then s else Counted(CountedAll(s, packets[..|packets| - 1]), packets[|packets| - 1])
  }

  function Advance(cfg: StreamConfig, s: Stream, f: Input): Stream {
    var ps := StepPackets(cfg, s, f);
    CountedAll(s, ps).(
    cache := Remember(s.cache, cfg.window, s.frameId % TWO_8, ps),
    frameId := (s.frameId + 1) % TWO_32,
    timestamp := (s.timestamp + f.ticks) % TWO_32)
  }

  // ------------------------------------------------------------------ a whole run, on unbounded counts

  function Ticks(fs: seq<Input>): nat {
    if fs == [] then 0 else Ticks(fs[..|fs| - 1]) + fs[|fs| - 1].ticks
  }

  /** What every packet of the frame after `before` carries, counted without wrap-around. */
  function MetaAfter(cfg: StreamConfig, before: seq<Input>, f: Input): FrameMeta
    decreases |before|, 1
  {
    FrameMeta(cfg.ssrc, cfg.payloadType, |AllPackets(cfg, before)| % TWO_16, |before| % TWO_8, !cfg.references || f.key,
              Ticks(before) % TWO_32, cfg.references && !f.key, if cfg.references then (|before| - 1) % TWO_8 else 0)
  }

  function FramePackets(cfg: StreamConfig, before: seq<Input>, f: Input): seq<bytes>
    decreases |before|, 2
  {
    Packets(MetaAfter(cfg, before, f), Encrypt(cfg.cipher, cfg.ivMask, |before| % TWO_32, f.data), MAX_PACKET_BYTES)
  }

  /** The first transmissions of a run, in order. */
  function AllPackets(cfg: StreamConfig, fs: seq<Input>): seq<bytes>
    decreases |fs|, 0
  {
    if fs == [] then []
    else AllPackets(cfg, fs[..|fs| - 1]) + FramePackets(cfg, fs[..|fs| - 1], fs[|fs| - 1])
  }

  function PacketsOf(cfg: StreamConfig, fs: seq<Input>, n: nat): seq<bytes>
    requires n < |fs|
  {
    FramePackets(cfg, fs[..n], fs[n])
  }

  function SentFrames(cfg: StreamConfig, fs: seq<Input>): seq<SentFrame> {
    seq(|fs|, n requires 0 <= n < |fs| => SentFrame(n % TWO_8, PacketsOf(cfg, fs, n)))
  }

  /** Every counter is its unbounded count, wrapped to its width. */
  ghost predicate CountersAfter(cfg: StreamConfig, fs: seq<Input>, s: Stream) {
    && s.frameId == |fs| % TWO_32
    && s.seqNo == |AllPackets(cfg, fs)| % TWO_16
    && s.packetCount == |AllPackets(cfg, fs)| % TWO_32
    && s.octetCount == |Join(AllPackets(cfg, fs))| % TWO_32
    && s.timestamp == Ticks(fs) % TWO_32
  }

  /** The fields after the frames `fs`: exact counters and an exact cache. */
  ghost predicate After(cfg: StreamConfig, fs: seq<Input>, s: Stream) {
    CountersAfter(cfg, fs, s) && Holds(s.cache, SentFrames(cfg, fs), cfg.window)
  }

  lemma FreshIsAfterNothing(cfg: StreamConfig)
    ensures After(cfg, [], FRESH)
  {
    assert SentFrames(cfg, []) == [];
  }

  lemma {:induction false} CountedAllIs(s: Stream, ps: seq<bytes>)
    ensures CountedAll(s, ps) == s.(seqNo := (s.seqNo + |ps|) % TWO_16, packetCount := (s.packetCount + |ps|) % TWO_32,
                                    octetCount := (s.octetCount + |Join(ps)|) % TWO_32)
  {
    if ps != [] {
      var init, last := ps[..|ps| - 1], ps[|ps| - 1];
      CountedAllIs(s, init);
      assert ps == init + [last];
      JoinSnoc(init, last);
      ModAdd(s.seqNo + |init|, 1, TWO_16);
      ModAdd(s.packetCount + |init|, 1, TWO_32);
      ModAdd(s.octetCount + |Join(init)|, |last|, TWO_32);
    }
  }

  lemma WrappedMeta(cfg: StreamConfig, fs: seq<Input>, s: Stream, f: Input)
    requires After(cfg, fs, s)
    ensures MetaFor(cfg, s, f) == MetaAfter(cfg, fs, f)
    ensures StepPackets(cfg, s, f) == FramePackets(cfg, fs, f)
  {
    hide AllPackets, Holds, Packets, Encrypt;
    var n := |fs|;
    Nested(n);
    ModAdd(n, -1, TWO_32);
    Nested(n - 1);
  }

  lemma Nested(n: int)
    ensures n % TWO_32 % TWO_8 == n % TWO_8
  {
    Division(n, TWO_32);
    assert n == n % TWO_32 + TWO_8 * (0x100_0000 * (n / TWO_32));
    AddMultiple(n % TWO_32, TWO_8, 0x100_0000 * (n / TWO_32));
  }

  lemma CountersAdvance(cfg: StreamConfig, fs: seq<Input>, s: Stream, f: Input)
    requires CountersAfter(cfg, fs, s)
    requires StepPackets(cfg, s, f) == FramePackets(cfg, fs, f)
    ensures CountersAfter(cfg, fs + [f], Advance(cfg, s, f))
  {
    hide StepPackets, FramePackets, Join, CountedAll;
    var n, fs' := |fs|, fs + [f];
    var ps, sofar := FramePackets(cfg, fs, f), AllPackets(cfg, fs);
    assert fs'[..n] == fs && fs'[n] == f;
    assert AllPackets(cfg, fs') == sofar + ps;
    hide AllPackets;
    CountedAllIs(s, ps);
    JoinAppend(sofar, ps);
    ModAdd(|sofar|, |ps|, TWO_16);
    ModAdd(|sofar|, |ps|, TWO_32);
    ModAdd(|Join(sofar)|, |Join(ps)|, TWO_32);
    ModAdd(Ticks(fs), f.ticks, TWO_32);
    ModAdd(n, 1, TWO_32);
  }

  lemma CacheAdvances(cfg: StreamConfig, fs: seq<Input>, s: Stream, f: Input)
    requires After(cfg, fs, s)
    requires StepPackets(cfg, s, f) == FramePackets(cfg, fs, f)
    ensures Holds(Advance(cfg, s, f).cache, SentFrames(cfg, fs + [f]), cfg.window)
  {
    hide StepPackets, FramePackets, AllPackets, Holds, SentFrames, CountedAll, Remember;
    var ps := FramePackets(cfg, fs, f);
    Nested(|fs|);
    SentFramesGrow(cfg, fs, f);
    RememberIsExact(s.cache, SentFrames(cfg, fs), cfg.window, SentFrame(|fs| % TWO_8, ps));
  }

  /** Sending one frame keeps every counter and the cache exact, through every 8-, 16- and 32-bit wrap. */
  lemma AdvanceKeeps(cfg: StreamConfig, fs: seq<Input>, s: Stream, f: Input)
    requires After(cfg, fs, s)
    ensures StepPackets(cfg, s, f) == FramePackets(cfg, fs, f)
    ensures After(cfg, fs + [f], Advance(cfg, s, f))
  {
    hide CountersAfter, Holds, Advance;
    WrappedMeta(cfg, fs, s, f);
    CountersAdvance(cfg, fs, s, f);
    CacheAdvances(cfg, fs, s, f);
  }

  lemma SentFramesGrow(cfg: StreamConfig, fs: seq<Input>, f: Input)
    ensures SentFrames(cfg, fs + [f]) == SentFrames(cfg, fs) + [SentFrame(|fs| % TWO_8, FramePackets(cfg, fs, f))]
  {
    hide FramePackets;
    var fs' := fs + [f];
    assert fs'[..|fs|] == fs;
    forall n: nat | n < |fs| ensures PacketsOf(cfg, fs', n) == PacketsOf(cfg, fs, n) {
      assert fs'[..n] == fs[..n];
    }
  }

  // ------------------------------------------------------------------ numbering

  /** The k-th first-transmitted packet of the stream carries sequence number k mod 2^16. */
  lemma {:induction false} SequenceNumbers(cfg: StreamConfig, fs: seq<Input>, k: nat)
    requires k < |AllPackets(cfg, fs)|
    ensures var q := ParseRtpPacket(AllPackets(cfg, fs)[k]);
            q.Some? && q.value.header.sequenceNumber == k % TWO_16 && q.value.header.ssrc == cfg.ssrc
  {
    hide ParseRtpPacket, Packets, Encrypt;
    var init, last := fs[..|fs| - 1], fs[|fs| - 1];
    var sofar := AllPackets(cfg, init);
    if k < |sofar| {
      SequenceNumbers(cfg, init, k);
    } else {
      PacketFields(cfg, init, last, k - |sofar|);
      ModAdd(|sofar|, k - |sofar|, TWO_16);
    }
  }

  /** The parsed header of packet `i` of the frame after `before`. */
  lemma PacketFields(cfg: StreamConfig, before: seq<Input>, f: Input, i: nat)
    requires i < |FramePackets(cfg, before, f)|
    ensures var q := ParseRtpPacket(FramePackets(cfg, before, f)[i]);
            && q.Some?
            && q.value.header.ssrc == cfg.ssrc && q.value.header.payloadType == cfg.payloadType % 0x80
            && q.value.header.maxPacketId == (|FramePackets(cfg, before, f)| - 1) % TWO_16
            && q.value.header.sequenceNumber == (|AllPackets(cfg, before)| % TWO_16 + i) % TWO_16
            && q.value.header.frameId == |before| % TWO_8
            && q.value.header.packetId == i % TWO_16
            && q.value.header.rtpTimestamp == Ticks(before) % TWO_32
            && q.value.header.keyFrame == (!cfg.references || f.key)
            && q.value.header.hasReference == (cfg.references && !f.key)
            && (q.value.header.hasReference ==> q.value.header.referenceFrameId == (|before| - 1) % TWO_8)
    ensures |FramePackets(cfg, before, f)[i]| <= MAX_PACKET_BYTES
  {
    hide ParseRtpPacket, Packets, Encrypt, AllPackets;
    PacketsSplitTheFrame(MetaAfter(cfg, before, f), Encrypt(cfg.cipher, cfg.ivMask, |before| % TWO_32, f.data),
        MAX_PACKET_BYTES);
  }

  /** A frame fills packets of at most 1400 octets, of which 18 are headers, or 19 with a reference. */
  lemma FrameCount(cfg: StreamConfig, before: seq<Input>, f: Input)
    ensures var m := if cfg.references && !f.key then 1381 else 1382;
            |FramePackets(cfg, before, f)| == if f.data == [] then 1 else (|f.data| + m - 1) / m
    ensures forall p :: p in FramePackets(cfg, before, f) ==> |p| <= 1400
  {
    hide ParseRtpPacket, Packets, Encrypt, AllPackets;
    var enc := Encrypt(cfg.cipher, cfg.ivMask, |before| % TWO_32, f.data);
    PacketsSplitTheFrame(MetaAfter(cfg, before, f), enc, MAX_PACKET_BYTES);
  }

  /** With a constant step, frame n carries timestamp n * step mod 2^32. */
  lemma {:induction false} ConstantStep(fs: seq<Input>, step: uint32)
    requires forall f :: f in fs ==> f.ticks == step
    ensures Ticks(fs) == |fs| * step
  {
    if fs != [] {
      ConstantStep(fs[..|fs| - 1], step);
      assert |fs| * step == (|fs| - 1) * step + step;
    }
  }

  // ------------------------------------------------------------------ recovery

  /** A frame still in the window is cached whole under its truncated id. */
  lemma WindowIsCached(cfg: StreamConfig, fs: seq<Input>, s: Stream, n: nat)
    requires After(cfg, fs, s) && cfg.window <= TWO_8
    requires n < |fs| && |fs| - cfg.window <= n
    ensures n % TWO_8 in s.cache.sent && s.cache.sent[n % TWO_8] == PacketsOf(cfg, fs, n)
  {
    hide PacketsOf, AllPackets, Holds;
    CacheHoldsTheWindow(s.cache, SentFrames(cfg, fs), cfg.window);
    assert SentFrames(cfg, fs)[n].packets == PacketsOf(cfg, fs, n);
  }

  /** Everything the cache can resend was transmitted before, by this stream. */
  lemma ResendsAreCopies(cfg: StreamConfig, fs: seq<Input>, s: Stream, nacks: seq<Nack>, p: bytes)
    requires After(cfg, fs, s)
    requires p in ResendAll(s.cache.sent, nacks)
    ensures p in AllPackets(cfg, fs)
  {
    hide AllPackets, PacketsOf, Resends;
    ResendAllExactly(s.cache.sent, nacks, p);
    var k :| 0 <= k < |nacks| && p in Resends(s.cache.sent, nacks[k]);
    ResendsExactly(s.cache.sent, nacks[k], p);
    var id := nacks[k].frameId;
    var i :| 0 <= i < |s.cache.sent[id]| && s.cache.sent[id][i] == p;
    NewestIsOne(SentFrames(cfg, fs), id);
    var n :| 0 <= n < |fs| && SentFrames(cfg, fs)[n].packets == s.cache.sent[id];
    FrameIsSent(cfg, fs, n);
  }

  lemma {:induction false} NewestIsOne(h: seq<SentFrame>, id: byte)
    ensures Newest(h, id).Some? ==> exists n :: 0 <= n < |h| && h[n].packets == Newest(h, id).value
  {
    if h != [] && h[|h| - 1].frameId != id {
      NewestIsOne(h[..|h| - 1], id);
      if Newest(h, id).Some? {
        var n :| 0 <= n < |h| - 1 && h[..|h| - 1][n].packets == Newest(h, id).value;
        assert h[n].packets == Newest(h, id).value;
      }
    }
  }

  lemma {:induction false} FrameIsSent(cfg: StreamConfig, fs: seq<Input>, n: nat)
    requires n < |fs|
    ensures forall p :: p in PacketsOf(cfg, fs, n) ==> p in AllPackets(cfg, fs)
  {
    hide FramePackets;
    var init := fs[..|fs| - 1];
    if n < |init| {
      FrameIsSent(cfg, init, n);
      assert init[..n] == fs[..n];
    }
  }

  /** The NACK list asks for every packet of frame `n` that the receiver does not hold. */
  ghost predicate CoversMissing(ps: seq<bytes>, held: seq<bytes>, nacks: seq<Nack>, n: nat) {
    forall i :: 0 <= i < |ps| && ps[i] !in held ==>
      exists k :: 0 <= k < |nacks| && nacks[k].frameId == n % TWO_8 && Covers(nacks[k], i)
  }

  /** Whoever has every packet of a frame of at most 65536, in any order and with any repeats, has the frame. */
  lemma WholeFrameDecrypts(cfg: StreamConfig, fs: seq<Input>, n: nat, got: seq<bytes>)
    requires n < |fs| && |PacketsOf(cfg, fs, n)| <= TWO_16
    requires OnlyFrom(got, PacketsOf(cfg, fs, n)) && AllOf(got, PacketsOf(cfg, fs, n))
    ensures Decrypt(cfg.cipher, cfg.ivMask, n % TWO_32, Reassembled(got)) == fs[n].data
  {
    hide AllPackets, Packets, Reassembled, Encrypt;
    var meta, enc := MetaAfter(cfg, fs[..n], fs[n]), Encrypt(cfg.cipher, cfg.ivMask, n % TWO_32, fs[n].data);
    assert PacketsOf(cfg, fs, n) == Packets(meta, enc, MAX_PACKET_BYTES);
    RoundTrip(meta, enc, MAX_PACKET_BYTES, got);
    assert Reassembled(got) == enc;
    DecryptInvertsEncrypt(cfg.cipher, cfg.ivMask, n % TWO_32, fs[n].data);
  }

  /**
   Recovery. For a frame still in the window, cut into at most 65536 packets, whatever part of it the
   receiver holds: any NACK list covering the rest is answered with enough packets that everything the
   receiver then has of that frame, in any order and with any repeats, reassembles and decrypts to it.
   */
  lemma NackRecoversFrame(cfg: StreamConfig, fs: seq<Input>, s: Stream, n: nat, held: seq<bytes>, nacks: seq<Nack>,
      got: seq<bytes>)
    requires After(cfg, fs, s) && cfg.window <= TWO_8
    requires n < |fs| && |fs| - cfg.window <= n && |PacketsOf(cfg, fs, n)| <= TWO_16
    requires CoversMissing(PacketsOf(cfg, fs, n), held, nacks, n)
    requires OnlyFrom(got, PacketsOf(cfg, fs, n))
    requires forall p :: p in PacketsOf(cfg, fs, n) && (p in held || p in ResendAll(s.cache.sent, nacks)) ==> p in got
    ensures Decrypt(cfg.cipher, cfg.ivMask, n % TWO_32, Reassembled(got)) == fs[n].data
  {
    hide AllPackets, PacketsOf, Resends, ResendAll, Reassembled, Decrypt, Holds;
    var ps := PacketsOf(cfg, fs, n);
    WindowIsCached(cfg, fs, s, n);
    forall p | p in ps ensures p in got {
      if p !in held {
        var i :| 0 <= i < |ps| && ps[i] == p;
        var k :| 0 <= k < |nacks| && nacks[k].frameId == n % TWO_8 && Covers(nacks[k], i);
        ResendsExactly(s.cache.sent, nacks[k], p);
        ResendAllExactly(s.cache.sent, nacks, p);
      }
    }
    WholeFrameDecrypts(cfg, fs, n, got);
  }

  /** The guard of the cache, over a whole run of the stream. */
  lemma GuardOfStream(cfg: StreamConfig, fs: seq<Input>, s: Stream)
    requires After(cfg, fs, s) && 0 < cfg.window <= |fs|
    ensures var order := s.cache.order + [s.frameId % TWO_8];
            order[0] in order[1..] <==> cfg.window >= TWO_8
  {
    hide PacketsOf, AllPackets, Holds;
    Nested(|fs|);
    GuardFires(s.cache, SentFrames(cfg, fs), cfg.window, SentFrame(s.frameId % TWO_8, []));
  }
}
