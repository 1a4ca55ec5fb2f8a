/**
 The mirroring session object (optional/cast/MirrorSession.cpp): its fields and methods, each shown to
 perform exactly one event of the state machine in MirrorModel.
 */
module MirrorSession {
  import opened Bytes
  import opened Options
  import opened CastPackets
  import opened CastCrypto
  import opened Rtcp
  import opened RetransmitCache
  import opened MirrorStream
  import opened MirrorModel

  /** The connected UDP socket. Sending may fail at any time; the log records what was handed over. */
  class UdpSender {
    var log: seq<Datagram>
    /** What Send reported for each datagram of the log. */
    ghost var results: seq<bool>
    var inbox: seq<bytes>

    constructor ()
      ensures log == [] && inbox == [] && results == []
    {
      log, inbox := [], [];
      results := [];
    }

    method Send(d: Datagram) returns (ok: bool)
      modifies this`log, this`results
      ensures log == old(log) + [d] && results == old(results) + [ok]
    {
      log := log + [d];
      ok := *;
      results := results + [ok];
    }

    /** A non-blocking read into a 2048-byte buffer; an empty datagram counts as nothing received. */
    method Receive() returns (got: bool, datagram: bytes)
      modifies this`inbox
      ensures old(inbox) == [] ==> !got && inbox == []
      ensures old(inbox) != [] ==> inbox == old(inbox)[1..] && got == (old(inbox)[0] != [])
      ensures got ==> datagram == old(inbox)[0][..Min(|old(inbox)[0]|, RECEIVE_BYTES)]
    {
      if inbox == [] {
        return false, [];
      }
      datagram := inbox[0][..Min(|inbox[0]|, RECEIVE_BYTES)];
      got := datagram != [];
      inbox := inbox[1..];
    }
  }

  /** `n` more datagrams were handed over, and `ok` says whether each of them was accepted. */
  ghost predicate AllSent(before: seq<bool>, after: seq<bool>, n: int, ok: bool) {
    before <= after && |after| == |before| + n && (ok <==> forall k :: |before| <= k < |after| ==> after[k])
  }

  /** As AllSent, for the first `n` of the datagrams handed over since. */
  ghost predicate FirstSent(before: seq<bool>, after: seq<bool>, n: int, ok: bool) {
    before <= after && |before| <= |before| + n <= |after|
        && (ok <==> forall k :: |before| <= k < |before| + n ==> after[k])
  }

  lemma NoneSent(a: seq<bool>)
    ensures AllSent(a, a, 0, true)
  {
  }

  lemma OneSent(a: seq<bool>, b: seq<bool>, n: int, ok: bool, more: bool)
    requires AllSent(a, b, n, ok)
    ensures AllSent(a, b + [more], n + 1, ok && more)
  {
    var c := b + [more];
    assert forall k :: 0 <= k < |b| ==> c[k] == b[k];
    assert c[|b|] == more;
  }

  lemma SentToo(a: seq<bool>, b: seq<bool>, c: seq<bool>, n: int, m: int, ok: bool, more: bool)
    requires AllSent(a, b, n, ok) && AllSent(b, c, m, more)
    ensures AllSent(a, c, n + m, ok && more)
  {
  }

  lemma SentFirst(a: seq<bool>, b: seq<bool>, c: seq<bool>, n: int, ok: bool)
    requires AllSent(a, b, n, ok) && b <= c
    ensures FirstSent(a, c, n, ok)
  {
  }

  lemma ApplySends(c: Config, s: Session, frames: seq<EncodedFrame>, env: Env)
    ensures Apply(c, s, SendFrame(frames, env)) == if s.started then Service(SendVideoAll(c, s, frames), env) else s
  {
    hide Service, SendVideoAll;
  }

  lemma TaggedLength(audio: bool, again: bool, packets: seq<bytes>)
    ensures |Tagged(audio, again, packets)| == |packets|
  {
  }

  lemma TaggedNothing(audio: bool, again: bool)
    ensures Tagged(audio, again, []) == []
  {
  }

  lemma TaggedOne(audio: bool, packets: seq<bytes>, k: nat)
    requires k < |packets|
    ensures Tagged(audio, false, packets[..k + 1]) == Tagged(audio, false, packets[..k])
            + [Media(audio, false, packets[k])]
  {
  }

  lemma CountingKeeps(s: Stream, packets: seq<bytes>)
    ensures var t := CountedAll(s, packets); t.frameId == s.frameId && t.timestamp == s.timestamp && t.cache == s.cache
  {
    CountedAllIs(s, packets);
  }

  lemma ResendOneMore(cache: Table, nacks: seq<Nack>, n: nat)
    requires n < |nacks|
    ensures ResendAll(cache, nacks[..n + 1]) == ResendAll(cache, nacks[..n]) + Resends(cache, nacks[n])
  {
    hide Resends;
    assert nacks[..n + 1][..n] == nacks[..n];
  }

  lemma NothingToResend(audio: bool, cache: Table, nacks: seq<Nack>)
    ensures Tagged(audio, true, ResendAll(cache, nacks[..0])) == []
  {
  }

  /** Entry `n` of the feedback block at `i`, read in the datagram. */
  lemma NackInPlace(p: bytes, i: nat, blockLen: nat, n: nat)
    requires i + blockLen <= |p| && blockLen >= 20
    ensures var block := p[i..i + blockLen];
            && (n < |Nacks(block)| <==> n < p[i + 17] && 20 + 4 * n + 4 <= blockLen)
            && (n < |Nacks(block)| ==>
                  Nacks(block)[n] == Nack(p[i + 20 + 4 * n], GetBE16(p, i + 20 + 4 * n + 1), p[i + 20 + 4 * n + 3]))
  {
    hide GetBE16;
    GetInSlice(p, i, i + blockLen, 20 + 4 * n + 1);
  }

  lemma MaskStep(packets: seq<bytes>, pid: nat, mask: byte, b: nat, sofar: seq<bytes>)
    requires b < 8
    ensures sofar + ResendMasked(packets, pid, mask, b)
         == (if Bit(mask, b) then sofar + Resend(packets, pid + 1 + b) else sofar)
             + ResendMasked(packets, pid, mask, b + 1)
  {
    hide Bit, Resend;
    var more, rest := Resend(packets, pid + 1 + b), ResendMasked(packets, pid, mask, b + 1);
    assert sofar + (more + rest) == (sofar + more) + rest;
    assert [] + rest == rest;
  }

  lemma MaskDone(packets: seq<bytes>, pid: nat, mask: byte, sofar: seq<bytes>)
    ensures sofar + ResendMasked(packets, pid, mask, 8) == sofar
  {
  }

  /** One step of the walk over p[at..end]. */
  lemma WalkAt(p: bytes, at: nat, end: nat)
    requires at <= end <= |p|
    ensures at + 4 <= end && at + (GetBE16(p, at + 2) + 1) * 4 <= end ==>
              var n := (GetBE16(p, at + 2) + 1) * 4;
              Walk(p[at..end]) == [p[at..at + n]] + Walk(p[at + n..end])
    ensures !(at + 4 <= end && at + (GetBE16(p, at + 2) + 1) * 4 <= end) ==> Walk(p[at..end]) == []
  {
    hide GetBE16;
    var q := p[at..end];
    if at + 4 <= end {
      GetInSlice(p, at, end, 2);
      var n := (GetBE16(p, at + 2) + 1) * 4;
      if at + n <= end {
        assert q[..n] == p[at..at + n] && q[n..] == p[at + n..end];
      }
    }
  }

  class MirrorSession {
    const udp: UdpSender
    const videoCipher: BlockCipher
    const videoIv: IvMask
    const audioCipher: BlockCipher
    const audioIv: IvMask
    const rtpStep: uint32

    // The counters and cache of each stream are grouped in one record, updated field by field.
    var video: Stream
    var audio: Stream
    var started: bool
    var audioStarted: bool
    var lastSrUs: int
    var reference: Reference
    var lastAck: byte
    var lastLoss: byte

    ghost function Cfg(): Config {
      MirrorConfig(videoCipher, videoIv, audioCipher, audioIv, rtpStep)
    }

    ghost function State(): Session
      reads this, udp
    {
      Session(video, audio, started, audioStarted, lastSrUs, reference, lastAck, lastLoss, udp.log, udp.inbox)
    }

    /** The session as Start leaves it once the receiver has accepted the offer. */
    constructor (videoCipher: BlockCipher, videoIv: IvMask, audioCipher: BlockCipher, audioIv: IvMask, fps: int)
      ensures fresh(udp) && State() == INITIAL
      ensures rtpStep == 90000 / (if fps > 0 then fps else 30)
    {
      this.videoCipher, this.videoIv := videoCipher, videoIv;
      this.audioCipher, this.audioIv := audioCipher, audioIv;
      rtpStep := 90000 / (if fps > 0 then fps else 30);
      udp := new UdpSender();
      video, audio := FRESH, FRESH;
      started, audioStarted := true, false;
      lastSrUs, reference, lastAck, lastLoss := 0, NoReference, 0xff, 0;
    }

    method SendVideoPackets(packets: seq<bytes>) returns (okAll: bool)
      modifies this`video, udp`log, udp`results
      ensures video == CountedAll(old(video), packets)
      ensures udp.log == old(udp.log) + Tagged(false, false, packets)
      ensures AllSent(old(udp.results), udp.results, |packets|, okAll)
    {
      hide Tagged, AllSent;
      okAll := true;
      var k := 0;
      TaggedNothing(false, false);
      NoneSent(udp.results);
      while k < |packets|
        invariant 0 <= k <= |packets|
        invariant AllSent(old(udp.results), udp.results, k, okAll)
        invariant video == CountedAll(old(video), packets[..k])
        invariant udp.log == old(udp.log) + Tagged(false, false, packets[..k])
      {
        assert packets[..k + 1][..k] == packets[..k];
        TaggedOne(false, packets, k);
        ghost var before := udp.results;
        var ok := udp.Send(Media(false, false, packets[k]));
        OneSent(old(udp.results), before, k, okAll, ok);
        if !ok {
          okAll := false;
        }
        video := video.(seqNo := (video.seqNo + 1) % TWO_16);
        video := video.(packetCount := (video.packetCount + 1) % TWO_32);
        video := video.(octetCount := (video.octetCount + |packets[k]|) % TWO_32);
        k := k + 1;
      }
      assert packets[..k] == packets;
    }

    /** One encoded frame: encrypt, packetize, send, cache, advance the clocks. */
    method SendOne(f: EncodedFrame) returns (okAll: bool)
      modifies this`video, udp`log, udp`results
      ensures State() == SendVideo(Cfg(), old(State()), f)
      ensures AllSent(old(udp.results), udp.results, |udp.log| - |old(udp.log)|, okAll)
    {
      hide CountedAll, Packets, Encrypt, Remember, Tagged, AllSent;
      ghost var before := video;
      var enc := Encrypt(videoCipher, videoIv, video.frameId, f.data);
      var hasRef := !f.key;
      var refId := (video.frameId - 1) % TWO_32 % TWO_8;
      var frameId8 := video.frameId % TWO_8;
      var meta := FrameMeta(VIDEO_SSRC, VIDEO_PAYLOAD_TYPE, video.seqNo, frameId8, f.key, video.timestamp, hasRef,
          refId);
      var packets := Packetize(meta, enc, MAX_PACKET_BYTES);
      assert packets == StepPackets(Cfg().video, video, VideoInput(Cfg(), f));
      okAll := SendVideoPackets(packets);
      TaggedLength(false, false, packets);
      CountingKeeps(before, packets);
      var cache := RememberFrame(video.cache, VIDEO_WINDOW, frameId8, packets);
      video := video.(cache := cache);
      video := video.(frameId := (video.frameId + 1) % TWO_32);
      video := video.(timestamp := (video.timestamp + rtpStep) % TWO_32);
    }

    /** `frames` is what the encoder made of the captured picture, or None when it failed. */
    method SendFrame(frames: Option<seq<EncodedFrame>>, env: Env) returns (ok: bool)
      modifies this, udp
      ensures State() == if frames.Some? then Apply(Cfg(), old(State()), Event.SendFrame(frames.value, env))
              else old(State())
      ensures !old(started) || frames.None? ==> !ok
      ensures old(started) && frames.Some? ==>
                var sent := |SendVideoAll(Cfg(), old(State()), frames.value).log| - |old(udp.log)|;
                FirstSent(old(udp.results), udp.results, sent, ok)
    {
      hide AllSent, FirstSent, Service, SendVideoAll, Apply;
      if frames.Some? {
        ApplySends(Cfg(), State(), frames.value, env);
      }
      if !started || frames.None? {
        return false;
      }
      ok := SendEach(frames.value);
      ghost var sentResults, n := udp.results, |udp.log| - |old(udp.log)|;
      ServiceRtcp(env);
      SentFirst(old(udp.results), sentResults, udp.results, n, ok);
    }

    /** The loop over the frames of one picture. */
    method SendEach(frames: seq<EncodedFrame>) returns (okAll: bool)
      modifies this`video, udp`log, udp`results
      ensures State() == SendVideoAll(Cfg(), old(State()), frames)
      ensures AllSent(old(udp.results), udp.results, |udp.log| - |old(udp.log)|, okAll)
    {
      hide AllSent, SendVideo;
      okAll := true;
      var k := 0;
      NoneSent(udp.results);
      while k < |frames|
        invariant 0 <= k <= |frames|
        invariant State() == SendVideoAll(Cfg(), old(State()), frames[..k])
        invariant AllSent(old(udp.results), udp.results, |udp.log| - |old(udp.log)|, okAll)
      {
        assert frames[..k + 1][..k] == frames[..k];
        ghost var before, n := udp.results, |udp.log|;
        var sent := SendOne(frames[k]);
        SentToo(old(udp.results), before, udp.results, n - |old(udp.log)|, |udp.log| - n, okAll, sent);
        okAll := okAll && sent;
        k := k + 1;
      }
      assert frames[..k] == frames;
    }

    method StartSound()
      modifies this`audio, this`audioStarted
      ensures State() == Apply(Cfg(), old(State()), StartAudio)
    {
      hide Service, SendVideoAll, SendSound;
      if started && !audioStarted {
        audio := audio.(frameId := 0, seqNo := 0, timestamp := 0, packetCount := 0, octetCount := 0);
        audioStarted := true;
      }
    }

    method SendAudioPackets(packets: seq<bytes>) returns (okAll: bool)
      modifies this`audio, udp`log, udp`results
      ensures audio == CountedAll(old(audio), packets)
      ensures udp.log == old(udp.log) + Tagged(true, false, packets)
      ensures AllSent(old(udp.results), udp.results, |packets|, okAll)
    {
      hide Tagged, AllSent;
      okAll := true;
      var k := 0;
      TaggedNothing(true, false);
      NoneSent(udp.results);
      while k < |packets|
        invariant 0 <= k <= |packets|
        invariant AllSent(old(udp.results), udp.results, k, okAll)
        invariant audio == CountedAll(old(audio), packets[..k])
        invariant udp.log == old(udp.log) + Tagged(true, false, packets[..k])
      {
        assert packets[..k + 1][..k] == packets[..k];
        TaggedOne(true, packets, k);
        ghost var before := udp.results;
        var ok := udp.Send(Media(true, false, packets[k]));
        OneSent(old(udp.results), before, k, okAll, ok);
        if !ok {
          okAll := false;
        }
        audio := audio.(seqNo := (audio.seqNo + 1) % TWO_16);
        audio := audio.(packetCount := (audio.packetCount + 1) % TWO_32);
        audio := audio.(octetCount := (audio.octetCount + |packets[k]|) % TWO_32);
        k := k + 1;
      }
      assert packets[..k] == packets;
    }

    /** `opus` is the encoded sound, or None when the encoder failed. */
    method SendAudio(opus: Option<bytes>, samples: uint32, env: Env) returns (ok: bool)
      modifies this, udp
      ensures State() == if opus.Some? then Apply(Cfg(), old(State()), Event.SendAudio(opus.value, samples, env))
              else old(State())
      ensures !old(started) || !old(audioStarted) ==> ok
      ensures old(started) && old(audioStarted) && opus.None? ==> !ok
      ensures old(started) && old(audioStarted) && opus.Some? ==>
                var sent := |SendSound(Cfg(), old(State()), Input(opus.value, true, samples)).log| - |old(udp.log)|;
                FirstSent(old(udp.results), udp.results, sent, ok)
    {
      if !started || !audioStarted {
        return true;
      }
      if opus.None? {
        return false;
      }
      hide AllSent, FirstSent, Service, SendSound;
      ok := SendSoundFrame(opus.value, samples);
      ghost var sentResults, n := udp.results, |udp.log| - |old(udp.log)|;
      ServiceRtcp(env);
      SentFirst(old(udp.results), sentResults, udp.results, n, ok);
    }

    method SendSoundFrame(opus: bytes, samples: uint32) returns (okAll: bool)
      modifies this`audio, udp`log, udp`results
      ensures State() == SendSound(Cfg(), old(State()), Input(opus, true, samples))
      ensures AllSent(old(udp.results), udp.results, |udp.log| - |old(udp.log)|, okAll)
    {
      hide CountedAll, Packets, Encrypt, Remember, Tagged, AllSent;
      ghost var before := audio;
      var enc := Encrypt(audioCipher, audioIv, audio.frameId, opus);
      var frameId8 := audio.frameId % TWO_8;
      var meta := FrameMeta(AUDIO_SSRC, AUDIO_PAYLOAD_TYPE, audio.seqNo, frameId8, true, audio.timestamp, false, 0);
      var packets := Packetize(meta, enc, MAX_PACKET_BYTES);
      assert packets == StepPackets(Cfg().audio, audio, Input(opus, true, samples));
      okAll := SendAudioPackets(packets);
      TaggedLength(true, false, packets);
      CountingKeeps(before, packets);
      var cache := RememberFrame(audio.cache, AUDIO_WINDOW, frameId8, packets);
      audio := audio.(cache := cache);
      audio := audio.(frameId := (audio.frameId + 1) % TWO_32);
      audio := audio.(timestamp := (audio.timestamp + samples) % TWO_32);
    }

    // ---------------------------------------------------------------- RTCP

    method SendSenderReports(env: Env)
      modifies this`lastSrUs, udp`log, udp`results
      ensures State() == SendReports(old(State()), env)
      ensures old(udp.results) <= udp.results
    {
      hide SenderReport, XrDlrr;
      if env.nowUs - lastSrUs >= REPORT_INTERVAL_US {
        lastSrUs := env.nowUs;
        var sr := SenderReport(VIDEO_SSRC, env.ntpSeconds, env.ntpFraction, video.timestamp, video.packetCount,
            video.octetCount);
        if reference.Heard? {
          sr := sr + XrDlrr(VIDEO_SSRC, reference.receiverSsrc, reference.lastRr, env.delay);
        }
        assert sr == VideoReport(old(State()), env);
        var _ := udp.Send(Report(sr));
        if audioStarted {
          var ar := SenderReport(AUDIO_SSRC, env.ntpSeconds, env.ntpFraction, audio.timestamp, audio.packetCount,
              audio.octetCount);
          var _ := udp.Send(Report(ar));
        }
      }
    }

    /** Re-send packet `pid` of a cached frame, if it has one. */
    method ResendOne(audio: bool, packets: seq<bytes>, pid: nat)
      modifies udp`log, udp`results
      ensures udp.log == old(udp.log) + Tagged(audio, true, Resend(packets, pid))
      ensures old(udp.results) <= udp.results
    {
      if pid < |packets| {
        var _ := udp.Send(Media(audio, true, packets[pid]));
      }
    }

    method ResendWhole(audio: bool, packets: seq<bytes>)
      modifies udp`log, udp`results
      ensures udp.log == old(udp.log) + Tagged(audio, true, packets)
      ensures old(udp.results) <= udp.results
    {
      hide Tagged;
      TaggedNothing(audio, true);
      var i := 0;
      while i < |packets|
        invariant 0 <= i <= |packets|
        invariant old(udp.results) <= udp.results
        invariant udp.log == old(udp.log) + Tagged(audio, true, packets[..i])
      {
        assert packets[..i + 1] == packets[..i] + Resend(packets, i);
        TaggedAppend(audio, true, packets[..i], Resend(packets, i));
        ResendOne(audio, packets, i);
        i := i + 1;
      }
      assert packets[..i] == packets;
    }

    method ResendMask(audio: bool, packets: seq<bytes>, pid: uint16, mask: byte)
      modifies udp`log, udp`results
      ensures udp.log == old(udp.log) + Tagged(audio, true, ResendMasked(packets, pid, mask, 0))
      ensures old(udp.results) <= udp.results
    {
      hide Bit, Tagged, Resend, ResendMasked;
      TaggedNothing(audio, true);
      var b := 0;
      ghost var sofar: seq<bytes> := [];
      assert sofar + ResendMasked(packets, pid, mask, 0) == ResendMasked(packets, pid, mask, 0);
      while b < 8
        invariant 0 <= b <= 8
        invariant old(udp.results) <= udp.results
        invariant sofar + ResendMasked(packets, pid, mask, b) == ResendMasked(packets, pid, mask, 0)
        invariant udp.log == old(udp.log) + Tagged(audio, true, sofar)
      {
        MaskStep(packets, pid, mask, b, sofar);
        if Bit(mask, b) {
          ghost var more := Resend(packets, pid + 1 + b);
          ResendOne(audio, packets, pid + 1 + b);
          TaggedAppend(audio, true, sofar, more);
          sofar := sofar + more;
        }
        b := b + 1;
      }
      MaskDone(packets, pid, mask, sofar);
    }

    method Retransmit(audio: bool, cache: Table, nack: Nack)
      modifies udp`log, udp`results
      ensures udp.log == old(udp.log) + Tagged(audio, true, Resends(cache, nack))
      ensures old(udp.results) <= udp.results
    {
      hide Tagged, Resend, ResendMasked;
      TaggedNothing(audio, true);
      if nack.frameId !in cache {
        return;
      }
      var packets := cache[nack.frameId];
      if nack.packetId == WHOLE_FRAME {
        ResendWhole(audio, packets);
        return;
      }
      ResendOne(audio, packets, nack.packetId);
      ResendMask(audio, packets, nack.packetId, nack.mask);
      TaggedAppend(audio, true, Resend(packets, nack.packetId), ResendMasked(packets, nack.packetId, nack.mask, 0));
    }

    /** The NACK entries of the feedback block at `i`: as many as announced and as fit. */
    method AnswerNacks(p: bytes, i: nat, blockLen: nat)
      requires i + blockLen <= |p| && IsCastFeedback(p[i..i + blockLen])
      modifies this`lastAck, this`lastLoss, udp`log, udp`results
      ensures State() == HandleFeedback(old(State()), p[i..i + blockLen])
      ensures old(udp.results) <= udp.results
    {
      hide Resends, Tagged, GetBE16, GetBE32, Nacks, NackCount, ResendAll;
      ghost var block := p[i..i + blockLen];
      GetInSlice(p, i, i + blockLen, 8);
      var mediaSsrc := GetBE32(p, i + 8);
      var isAudio := mediaSsrc == AUDIO_SSRC;
      var cache := if isAudio then audio.cache.sent else video.cache.sent;
      if !isAudio {
        lastAck := p[i + 16];
        lastLoss := p[i + 17];
      }
      var lossCount := p[i + 17];
      var fci := i + 20;
      var n := 0;
      NothingToResend(isAudio, cache, Nacks(block));
      NackInPlace(p, i, blockLen, 0);
      while n < lossCount && fci + 4 <= i + blockLen
        invariant 0 <= n <= |Nacks(block)| && fci == i + 20 + 4 * n
        invariant old(udp.results) <= udp.results
        invariant n < |Nacks(block)| <==> n < lossCount && fci + 4 <= i + blockLen
        invariant udp.log == old(udp.log) + Tagged(isAudio, true, ResendAll(cache, Nacks(block)[..n]))
        modifies udp`log, udp`results
      {
        var nack := Nack(p[fci], GetBE16(p, fci + 1), p[fci + 3]);
        NackInPlace(p, i, blockLen, n);
        ResendOneMore(cache, Nacks(block), n);
        TaggedAppend(isAudio, true, ResendAll(cache, Nacks(block)[..n]), Resends(cache, nack));
        Retransmit(isAudio, cache, nack);
        fci := fci + 4;
        n := n + 1;
        NackInPlace(p, i, blockLen, n);
      }
      assert Nacks(block)[..n] == Nacks(block);
      assert block[16] == p[i + 16] && block[17] == p[i + 17];
    }

    /** The sub-blocks of the XR packet at `i`; the last complete reference time wins. */
    method HearReference(p: bytes, i: nat, blockLen: nat, nowUs: int)
      requires i + blockLen <= |p| && IsXr(p[i..i + blockLen])
      modifies this`reference
      ensures State() == HandleXr(old(State()), p[i..i + blockLen], nowUs)
    {
      hide GetBE16, GetBE32, Walk;
      var end := i + blockLen;
      GetInSlice(p, i, end, 4);
      var xrSsrc := GetBE32(p, i + 4);
      var j := i + 8;
      SliceOfSlice(p, i, end, 8, blockLen);
      ghost var seen: seq<bytes> := [];
      while j + 4 <= end && j + (GetBE16(p, j + 2) + 1) * 4 <= end
        invariant i + 8 <= j <= end
        invariant seen + Walk(p[j..end]) == Walk(p[i + 8..end])
        invariant reference == HeardIn(old(reference), xrSsrc, seen, nowUs)
      {
        var blkBytes := (GetBE16(p, j + 2) + 1) * 4;
        ghost var sub := p[j..j + blkBytes];
        WalkAt(p, j, end);
        GetInSlice(p, j, j + blkBytes, 4);
        GetInSlice(p, j, j + blkBytes, 8);
        if p[j] == BT_REFERENCE_TIME && blkBytes >= 12 {
          var msw := GetBE32(p, j + 4);
          var lsw := GetBE32(p, j + 8);
          reference := Heard(xrSsrc, msw % TWO_16 * TWO_16 + lsw / TWO_16, nowUs);
        }
        assert (seen + [sub])[..|seen|] == seen;
        assert seen + Walk(p[j..end]) == (seen + [sub]) + Walk(p[j + blkBytes..end]);
        seen := seen + [sub];
        j := j + blkBytes;
      }
      WalkAt(p, j, end);
      assert seen + [] == seen;
    }

    /** The reference after the sub-blocks `seen`. */
    static ghost function HeardIn(r: Reference, xrSsrc: uint32, seen: seq<bytes>, nowUs: int): Reference {
      match LastReference(seen)
      case Some(sub) => Heard(xrSsrc, LastRr(sub), nowUs)
      case None => r
    }

    /** Walk one datagram block by block; every read stays inside the current block. */
    method ProcessDatagram(p: bytes, nowUs: int)
      modifies this`lastAck, this`lastLoss, this`reference, udp`log, udp`results
      ensures State() == HandleDatagram(old(State()), p, nowUs)
      ensures old(udp.results) <= udp.results
    {
      hide HandleBlock, GetBE16, Walk;
      var i := 0;
      assert p[0..|p|] == p;
      while i + 4 <= |p| && i + (GetBE16(p, i + 2) + 1) * 4 <= |p|
        invariant 0 <= i <= |p|
        invariant old(udp.results) <= udp.results
        invariant HandleBlocks(old(State()), Walk(p), nowUs) == HandleBlocks(State(), Walk(p[i..|p|]), nowUs)
      {
        var blockLen := (GetBE16(p, i + 2) + 1) * 4;
        WalkAt(p, i, |p|);
        ghost var block, rest := p[i..i + blockLen], Walk(p[i + blockLen..|p|]);
        assert ([block] + rest)[0] == block && ([block] + rest)[1..] == rest;
        ProcessBlock(p, i, blockLen, nowUs);
        i := i + blockLen;
      }
      WalkAt(p, i, |p|);
    }

    method ProcessBlock(p: bytes, i: nat, blockLen: nat, nowUs: int)
      requires i + blockLen <= |p| && blockLen >= 4
      modifies this`lastAck, this`lastLoss, this`reference, udp`log, udp`results
      ensures State() == HandleBlock(old(State()), p[i..i + blockLen], nowUs)
      ensures old(udp.results) <= udp.results
    {
      hide HandleFeedback, HandleXr;
      ghost var block := p[i..i + blockLen];
      var pt := p[i + 1];
      assert block[1] == pt;
      if blockLen >= 20 {
        SliceOfSlice(p, i, i + blockLen, 12, 16);
      }
      if pt == PT_PSFB && blockLen >= 20 && p[i + 12..i + 16] == CAST {
        AnswerNacks(p, i, blockLen);
      }
      if pt == PT_XR && blockLen >= 8 {
        HearReference(p, i, blockLen, nowUs);
      }
    }

    method ServiceRtcp(env: Env)
      modifies this, udp
      ensures State() == Service(old(State()), env)
      ensures old(udp.results) <= udp.results
    {
      hide SendReports, HandleDatagram;
      SendSenderReports(env);
      var guard := 0;
      var receiving := true;
      while guard < RECEIVE_BUDGET && receiving
        invariant 0 <= guard <= RECEIVE_BUDGET
        invariant old(udp.results) <= udp.results
        invariant Drain(SendReports(old(State()), env), RECEIVE_BUDGET, env.nowUs)
               == if receiving then Drain(State(), RECEIVE_BUDGET - guard, env.nowUs) else State()
        decreases RECEIVE_BUDGET - guard
      {
        guard := guard + 1;
        var datagram;
        receiving, datagram := udp.Receive();
        if receiving {
          ProcessDatagram(datagram, env.nowUs);
        }
      }
    }

    method StopSession()
      modifies this`started
      ensures State() == Apply(Cfg(), old(State()), Stop)
    {
      hide Service, SendVideoAll, SendSound;
      started := false;
    }
  }
}
