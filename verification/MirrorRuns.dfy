/** What holds over every run of the mirroring session (optional/cast/MirrorSession.cpp). */
module MirrorRuns {
  import opened Bytes
  import opened Options
  import opened CastPackets
  import opened CastCrypto
  import opened CastReassembly
  import opened Rtcp
  import opened RetransmitCache
  import opened MirrorStream
  import opened MirrorModel

  /** Sound is only sent once started, so starting it resets nothing that was sent. */
  ghost predicate Quiet(s: Session, ain: seq<Input>) {
    !s.audioStarted ==> ain == []
  }

  lemma ApplyKeeps(c: Config, vin: seq<Input>, ain: seq<Input>, s: Session, e: Event)
    requires Inv(c, vin, ain, s) && Quiet(s, ain)
    ensures var vin' := vin + if e.SendFrame? && s.started then Inputs(c, e.frames) else [];
            var ain' := ain + if e.SendAudio? && s.started && s.audioStarted then [Input(e.opus, true, e.samples)]
                else [];
            Inv(c, vin', ain', Apply(c, s, e)) && Quiet(Apply(c, s, e), ain')
  {
    hide After, AllPackets, Firsts, RepeatsAreCopies, SendVideoAll, SendSound, Service, Inputs;
    assert vin + [] == vin && ain + [] == ain;
    match e
    case SendFrame(frames, env) =>
      if s.started {
        VideoAllKeeps(c, vin, ain, s, frames);
        ServiceKeeps(c, vin + Inputs(c, frames), ain, SendVideoAll(c, s, frames), env);
        VideoAllKeepsRest(c, s, frames);
        ServiceKeepsRest(SendVideoAll(c, s, frames), env);
      }
    case SendAudio(opus, samples, env) =>
      if s.started && s.audioStarted {
        var x := Input(opus, true, samples);
        SoundKeeps(c, vin, ain, s, x);
        ServiceKeeps(c, vin, ain + [x], SendSound(c, s, x), env);
        SoundKeepsRest(c, s, x);
        ServiceKeepsRest(SendSound(c, s, x), env);
      }
    case StartAudio =>
      assert s.started && !s.audioStarted ==> FRESH.(cache := s.audio.cache) == s.audio by {
        if !s.audioStarted { NothingSent(c.audio, s.audio); }
      }
    case Arrive(_) =>
    case Stop =>
  }

  lemma NothingSent(cfg: StreamConfig, s: Stream)
    requires After(cfg, [], s)
    ensures FRESH.(cache := s.cache) == s
  {
  }

  /** The switches and, for sending, the mailbox are left alone by the bulk of an event. */
  ghost predicate SameSwitches(s: Session, t: Session) {
    s.started == t.started && s.audioStarted == t.audioStarted
  }

  lemma {:induction false} VideoAllKeepsRest(c: Config, s: Session, frames: seq<EncodedFrame>)
    ensures SameSwitches(s, SendVideoAll(c, s, frames)) && SendVideoAll(c, s, frames).inbox == s.inbox
    ensures SendVideoAll(c, s, frames).audio == s.audio
  {
    hide Advance, StepPackets;
    if frames != [] {
      VideoAllKeepsRest(c, s, frames[..|frames| - 1]);
    }
  }

  lemma SoundKeepsRest(c: Config, s: Session, x: Input)
    ensures SameSwitches(s, SendSound(c, s, x)) && SendSound(c, s, x).inbox == s.inbox
  {
    hide Advance, StepPackets;
  }

  lemma {:induction false} BlocksKeepRest(s: Session, blocks: seq<bytes>, nowUs: int)
    ensures SameSwitches(s, HandleBlocks(s, blocks, nowUs)) && HandleBlocks(s, blocks, nowUs).inbox == s.inbox
    decreases |blocks|
  {
    hide Walk, Nacks, ResendAll, Tagged;
    if blocks != [] {
      BlocksKeepRest(HandleBlock(s, blocks[0], nowUs), blocks[1..], nowUs);
    }
  }

  lemma {:induction false} DrainKeepsRest(s: Session, budget: nat, nowUs: int)
    ensures SameSwitches(s, Drain(s, budget, nowUs))
    decreases budget
  {
    hide HandleBlocks, Walk;
    if budget > 0 && s.inbox != [] && s.inbox[0] != [] {
      var t := s.(inbox := s.inbox[1..]);
      var dg := s.inbox[0][..Min(|s.inbox[0]|, RECEIVE_BYTES)];
      BlocksKeepRest(t, Walk(dg), nowUs);
      DrainKeepsRest(HandleDatagram(t, dg, nowUs), budget - 1, nowUs);
    }
  }

  lemma ServiceKeepsRest(s: Session, env: Env)
    ensures SameSwitches(s, Service(s, env))
  {
    hide Drain;
    DrainKeepsRest(SendReports(s, env), RECEIVE_BUDGET, env.nowUs);
  }

  // ------------------------------------------------------------------ what a run submits, told from its events

  /** Sound was started while the session ran. */
  predicate Sounding(events: seq<Event>) {
    exists i :: 0 <= i < |events| && events[i] == StartAudio && Stop !in events[..i]
  }

  /** The video frames handed over while the session ran, in order. */
  function Frames(events: seq<Event>): seq<EncodedFrame> {
    if events == [] then []
    else
      var init, last := events[..|events| - 1], events[|events| - 1];
      Frames(init) + (if last.SendFrame? && Stop !in init then last.frames else [])
  }

  datatype Sound = Sound(opus: bytes, samples: uint32)

  /** The sound frames handed over while the session ran with sound, in order. */
  function Sounds(events: seq<Event>): seq<Sound> {
    if events == [] then []
    else
      var init, last := events[..|events| - 1], events[|events| - 1];
      Sounds(init) + (if last.SendAudio? && Stop !in init && Sounding(init) then [Sound(last.opus, last.samples)]
          else [])
  }

  lemma ApplySwitches(c: Config, s: Session, e: Event)
    ensures Apply(c, s, e).started == (s.started && e != Stop)
    ensures Apply(c, s, e).audioStarted == (s.audioStarted || (e == StartAudio && s.started))
  {
    hide SendVideoAll, SendSound, Service;
    match e
    case SendFrame(frames, env) =>
      VideoAllKeepsRest(c, s, frames);
      ServiceKeepsRest(SendVideoAll(c, s, frames), env);
    case SendAudio(opus, samples, env) =>
      SoundKeepsRest(c, s, Input(opus, true, samples));
      ServiceKeepsRest(SendSound(c, s, Input(opus, true, samples)), env);
    case StartAudio =>
    case Arrive(_) =>
    case Stop =>
  }

  /** The session runs until it is stopped, and has sound once that was started before. */
  lemma {:induction false} SwitchesOverRun(c: Config, events: seq<Event>)
    ensures Run(c, events).started <==> Stop !in events
    ensures Run(c, events).audioStarted <==> Sounding(events)
  {
    assert !Sounding([]);
    if events != [] {
      hide Apply, Sounding;
      var init, last := events[..|events| - 1], events[|events| - 1];
      SwitchesOverRun(c, init);
      assert events == init + [last];
      SoundingSnoc(init, last);
      ApplySwitches(c, Run(c, init), last);
    }
  }

  lemma SoundingSnoc(init: seq<Event>, last: Event)
    ensures Sounding(init + [last]) <==> Sounding(init) || (last == StartAudio && Stop !in init)
  {
    var events := init + [last];
    if Sounding(init) {
      var i :| 0 <= i < |init| && init[i] == StartAudio && Stop !in init[..i];
      assert events[i] == StartAudio && events[..i] == init[..i];
    }
    if last == StartAudio && Stop !in init {
      assert events[|init|] == StartAudio && events[..|init|] == init;
    }
    if Sounding(events) {
      var i :| 0 <= i < |events| && events[i] == StartAudio && Stop !in events[..i];
      if i < |init| {
        assert init[i] == StartAudio && init[..i] == events[..i];
      } else {
        assert events[..i] == init;
      }
    }
  }

  /** The model's inputs are those frames: their data, their key flags, and the ticks of the step or the samples. */
  ghost predicate AreInputs(c: Config, events: seq<Event>) {
    && |VideoIn(c, events)| == |Frames(events)| && |AudioIn(c, events)| == |Sounds(events)|
    && (forall n :: 0 <= n < |Frames(events)| ==>
          VideoIn(c, events)[n] == Input(Frames(events)[n].data, Frames(events)[n].key, c.rtpStep))
    && (forall n :: 0 <= n < |Sounds(events)| ==>
          AudioIn(c, events)[n] == Input(Sounds(events)[n].opus, true, Sounds(events)[n].samples))
  }

  lemma {:induction false} SubmittedAre(c: Config, events: seq<Event>)
    ensures AreInputs(c, events)
  {
    hide AreInputs;
    if events == [] {
      NoInputs(c);
    } else {
      SubmittedAre(c, events[..|events| - 1]);
      MoreInputs(c, events);
    }
  }

  lemma NoInputs(c: Config)
    ensures AreInputs(c, [])
  {
  }

  lemma MoreInputs(c: Config, events: seq<Event>)
    requires events != [] && AreInputs(c, events[..|events| - 1])
    ensures AreInputs(c, events)
  {
    hide Run, VideoIn, AudioIn, Frames, Sounds, Inputs;
    var init, last := events[..|events| - 1], events[|events| - 1];
    MoreFrames(c, init, last);
    MoreSounds(c, init, last);
    assert events == init + [last];
    if last.SendFrame? && Stop !in init {
      InputsAre(c, last.frames);
    }
  }

  lemma InputsAre(c: Config, frames: seq<EncodedFrame>)
    ensures |Inputs(c, frames)| == |frames|
    ensures forall n :: 0 <= n < |frames| ==> Inputs(c, frames)[n] == Input(frames[n].data, frames[n].key, c.rtpStep)
  {
  }

  lemma MoreFrames(c: Config, init: seq<Event>, last: Event)
    ensures var more := last.SendFrame? && Stop !in init;
            && VideoIn(c, init + [last]) == VideoIn(c, init) + (if more then Inputs(c, last.frames) else [])
            && Frames(init + [last]) == Frames(init) + (if more then last.frames else [])
  {
    hide Run, Inputs;
    SwitchesOverRun(c, init);
    assert (init + [last])[..|init|] == init;
  }

  lemma MoreSounds(c: Config, init: seq<Event>, last: Event)
    ensures var more := last.SendAudio? && Stop !in init && Sounding(init);
            && AudioIn(c, init + [last])
               == AudioIn(c, init) + (if more then [Input(last.opus, true, last.samples)] else [])
            && Sounds(init + [last]) == Sounds(init) + (if more then [Sound(last.opus, last.samples)] else [])
  {
    hide Run, Sounding;
    SwitchesOverRun(c, init);
    assert (init + [last])[..|init|] == init;
  }

  /**
   Over every run: both streams' counters and caches are exact, the first transmissions are precisely
   the packets of the submitted frames, and every repeat is a byte-for-byte copy of an earlier first
   transmission of the same stream. The submitted frames are those of the events themselves.
   */
  lemma {:induction false} EveryRun(c: Config, events: seq<Event>)
    ensures Inv(c, VideoIn(c, events), AudioIn(c, events), Run(c, events))
    ensures Quiet(Run(c, events), AudioIn(c, events))
    ensures AreInputs(c, events)
  {
    hide Inv, Apply, AreInputs;
    SubmittedAre(c, events);
    if events == [] {
      NothingYet(c);
    } else {
      var init, last := events[..|events| - 1], events[|events| - 1];
      EveryRun(c, init);
      ApplyKeeps(c, VideoIn(c, init), AudioIn(c, init), Run(c, init), last);
    }
  }

  /** The packets of the frames, one after the other. */
  function Flat(frames: seq<seq<bytes>>): seq<bytes> {
    if frames == [] then [] else Flat(frames[..|frames| - 1]) + frames[|frames| - 1]
  }

  lemma {:induction false} AllPacketsAreFlat(cfg: StreamConfig, fs: seq<Input>)
    ensures AllPackets(cfg, fs) == Flat(seq(|fs|, n requires 0 <= n < |fs| => PacketsOf(cfg, fs, n)))
  {
    hide FramePackets;
    if fs != [] {
      var init := fs[..|fs| - 1];
      AllPacketsAreFlat(cfg, init);
      var all := seq(|fs|, n requires 0 <= n < |fs| => PacketsOf(cfg, fs, n));
      forall n | 0 <= n < |init| ensures PacketsOf(cfg, init, n) == all[n] {
        assert init[..n] == fs[..n];
      }
      assert all[..|fs| - 1] == seq(|init|, n requires 0 <= n < |init| => PacketsOf(cfg, init, n));
      assert fs[..|fs| - 1] == init;
    }
  }

  /** What a packet says of its frame. */
  ghost predicate Heads(
      p: bytes, ssrc: int, payloadType: int, n: nat, i: nat, count: nat, ticks: int, key: bool, references: bool) {
    var q := ParseRtpPacket(p);
    && q.Some? && q.value.header.ssrc == ssrc && q.value.header.payloadType == payloadType
    && q.value.header.frameId == n % 256 && q.value.header.rtpTimestamp == ticks % 0x1_0000_0000
    && q.value.header.packetId == i % 0x1_0000 && q.value.header.maxPacketId == (count - 1) % 0x1_0000
    && q.value.header.keyFrame == key && q.value.header.hasReference == references
    && (references ==> q.value.header.referenceFrameId == (n - 1) % 256)
  }

  lemma PacketHeads(cfg: StreamConfig, fs: seq<Input>, n: nat, i: nat)
    requires n < |fs| && i < |PacketsOf(cfg, fs, n)|
    ensures Heads(PacketsOf(cfg, fs, n)[i], cfg.ssrc, cfg.payloadType % 0x80, n, i, |PacketsOf(cfg, fs, n)|,
            Ticks(fs[..n]),
                  !cfg.references || fs[n].key, cfg.references && !fs[n].key)
  {
    hide FramePackets, ParseRtpPacket;
    PacketFields(cfg, fs[..n], fs[n], i);
  }

  lemma CountOfPackets(cfg: StreamConfig, fs: seq<Input>, n: nat)
    requires n < |fs|
    ensures var m := if cfg.references && !fs[n].key then 1381 else 1382;
            |PacketsOf(cfg, fs, n)| == if fs[n].data == [] then 1 else (|fs[n].data| + m - 1) / m
    ensures forall p :: p in PacketsOf(cfg, fs, n) ==> |p| <= 1400
  {
    hide FramePackets;
    FrameCount(cfg, fs[..n], fs[n]);
  }

  /** These are the packets of a frame: as few as hold it, each with the frame's head, and they give back its data. */
  ghost predicate CarryFrame(
      ps: seq<bytes>, ssrc: int, payloadType: int, n: nat, ticks: int, key: bool, references: bool, data: bytes,
      cipher: BlockCipher, ivMask: IvMask, got: seq<bytes>) {
    var m := if references then 1381 else 1382;
    && |ps| == (if data == [] then 1 else (|data| + m - 1) / m) && (forall p :: p in ps ==> |p| <= 1400)
    && (forall i :: 0 <= i < |ps| ==> Heads(ps[i], ssrc, payloadType, n, i, |ps|, ticks, key, references))
    && (|ps| <= 65536 && OnlyFrom(got, ps) && AllOf(got, ps) ==>
          Decrypt(cipher, ivMask, n % 0x1_0000_0000, Reassembled(got)) == data)
  }

  lemma FrameIsCarried(cfg: StreamConfig, fs: seq<Input>, n: nat, got: seq<bytes>)
    requires n < |fs|
    ensures CarryFrame(PacketsOf(cfg, fs, n), cfg.ssrc, cfg.payloadType % 0x80, n, Ticks(fs[..n]),
                       !cfg.references || fs[n].key, cfg.references && !fs[n].key, fs[n].data, cfg.cipher,
                       cfg.ivMask, got)
  {
    hide Heads, PacketsOf, Decrypt, Reassembled, OnlyFrom, AllOf;
    var ps := PacketsOf(cfg, fs, n);
    CountOfPackets(cfg, fs, n);
    forall i | 0 <= i < |ps|
      ensures Heads(ps[i], cfg.ssrc, cfg.payloadType % 0x80, n, i, |ps|, Ticks(fs[..n]), !cfg.references || fs[n].key,
                    cfg.references && !fs[n].key)
    {
      PacketHeads(cfg, fs, n, i);
    }
    if |ps| <= 65536 && OnlyFrom(got, ps) && AllOf(got, ps) {
      WholeFrameDecrypts(cfg, fs, n, got);
    }
  }

  /** The first transmissions of a stream are the packets of its frames, frame after frame. */
  lemma FirstsAreFlat(c: Config, events: seq<Event>)
    ensures var fs := VideoIn(c, events);
            Firsts(Run(c, events).log, false) == Flat(seq(|fs|, k requires 0 <= k < |fs| => PacketsOf(c.video, fs, k)))
    ensures var fs := AudioIn(c, events);
            Firsts(Run(c, events).log, true) == Flat(seq(|fs|, k requires 0 <= k < |fs| => PacketsOf(c.audio, fs, k)))
  {
    hide AllPackets, Firsts, Run, PacketsOf, VideoIn, AudioIn, Flat;
    FirstsAre(c, events);
    AllPacketsAreFlat(c.video, VideoIn(c, events));
    AllPacketsAreFlat(c.audio, AudioIn(c, events));
  }

  /** The video frame of the run is the event's. */
  lemma VideoFrameIs(c: Config, events: seq<Event>, n: nat)
    requires n < |Frames(events)|
    ensures n < |VideoIn(c, events)| && VideoIn(c, events)[n]
            == Input(Frames(events)[n].data, Frames(events)[n].key, c.rtpStep)
    ensures Ticks(VideoIn(c, events)[..n]) == n * c.rtpStep
  {
    hide VideoIn, Frames, Ticks;
    SubmittedAre(c, events);
    ConstantStep(VideoIn(c, events)[..n], c.rtpStep);
  }

  lemma VideoIsCarried(c: Config, events: seq<Event>, n: nat, got: seq<bytes>)
    requires n < |Frames(events)| && c.video.references
    ensures n < |VideoIn(c, events)|
    ensures CarryFrame(PacketsOf(c.video, VideoIn(c, events), n), c.video.ssrc, c.video.payloadType % 0x80, n,
                       n * c.rtpStep, Frames(events)[n].key, !Frames(events)[n].key, Frames(events)[n].data,
                       c.video.cipher, c.video.ivMask, got)
  {
    hide PacketsOf, CarryFrame, VideoIn, Frames, Ticks;
    VideoFrameIs(c, events, n);
    FrameIsCarried(c.video, VideoIn(c, events), n, got);
  }

  /**
   Video over every run, told from the events alone: frame `n` of those handed over while the session ran is cut into
   as few packets of 1400 octets as hold it, which carry SSRC 100000, payload type 127, the frame's key flag, a
   reference to the frame before unless it is a key frame, and its time; and they give back its data.
   */
  lemma VideoOverRun(
      videoCipher: BlockCipher, videoIv: IvMask, audioCipher: BlockCipher, audioIv: IvMask, step: uint32,
      events: seq<Event>, n: nat, got: seq<bytes>)
    requires n < |Frames(events)|
    ensures var c := MirrorConfig(videoCipher, videoIv, audioCipher, audioIv, step);
            var f := Frames(events)[n];
            n < |VideoIn(c, events)|
            && CarryFrame(PacketsOf(c.video, VideoIn(c, events), n), 100000, 127, n, n * step, f.key, !f.key, f.data,
                          videoCipher, videoIv, got)
  {
    hide PacketsOf, CarryFrame, VideoIn, Frames;
    VideoIsCarried(MirrorConfig(videoCipher, videoIv, audioCipher, audioIv, step), events, n, got);
  }

  /** Over every run the caches hold the last 60 video frames and the last 120 sound frames. */
  lemma CachesOverRun(
      videoCipher: BlockCipher, videoIv: IvMask, audioCipher: BlockCipher, audioIv: IvMask, step: uint32,
      events: seq<Event>)
    ensures var c := MirrorConfig(videoCipher, videoIv, audioCipher, audioIv, step);
            var s := Run(c, events);
            && |s.video.cache.sent| == (if |Frames(events)| < 60 then |Frames(events)| else 60)
            && |s.audio.cache.sent| == (if |Sounds(events)| < 120 then |Sounds(events)| else 120)
  {
    hide AllPackets, Firsts, Run, SentFrames, Fits, VideoIn, AudioIn, Frames, Sounds;
    var c := MirrorConfig(videoCipher, videoIv, audioCipher, audioIv, step);
    EveryRun(c, events);
    CacheSize(c.video, VideoIn(c, events), Run(c, events).video);
    CacheSize(c.audio, AudioIn(c, events), Run(c, events).audio);
  }

  lemma CacheSize(cfg: StreamConfig, fs: seq<Input>, s: Stream)
    requires After(cfg, fs, s) && cfg.window <= TWO_8
    ensures |s.cache.sent| == Min(cfg.window, |fs|)
  {
    hide PacketsOf, AllPackets, Holds;
    CacheHoldsTheWindow(s.cache, SentFrames(cfg, fs), cfg.window);
  }

  function Samples(sounds: seq<Sound>): nat {
    if sounds == [] then 0 else Samples(sounds[..|sounds| - 1]) + sounds[|sounds| - 1].samples
  }

  lemma {:induction false} SamplesAreTicks(fs: seq<Input>, sounds: seq<Sound>)
    requires |fs| == |sounds| && forall n :: 0 <= n < |fs| ==> fs[n].ticks == sounds[n].samples
    ensures Ticks(fs) == Samples(sounds)
  {
    if fs != [] {
      SamplesAreTicks(fs[..|fs| - 1], sounds[..|fs| - 1]);
    }
  }

  lemma SoundFrameIs(c: Config, events: seq<Event>, n: nat)
    requires n < |Sounds(events)|
    ensures n < |AudioIn(c, events)|
    ensures AudioIn(c, events)[n] == Input(Sounds(events)[n].opus, true, Sounds(events)[n].samples)
    ensures Ticks(AudioIn(c, events)[..n]) == Samples(Sounds(events)[..n])
  {
    hide AudioIn, Sounds, Ticks, Samples;
    SubmittedAre(c, events);
    SamplesAreTicks(AudioIn(c, events)[..n], Sounds(events)[..n]);
  }

  /**
   Sound over every run, told from the events alone: likewise, with SSRC 100001 and payload type 96, each frame a key
   frame without a reference, timed by the samples of the frames before it.
   */
  lemma SoundOverRun(
      videoCipher: BlockCipher, videoIv: IvMask, audioCipher: BlockCipher, audioIv: IvMask, step: uint32,
      events: seq<Event>, n: nat, got: seq<bytes>)
    requires n < |Sounds(events)|
    ensures var c := MirrorConfig(videoCipher, videoIv, audioCipher, audioIv, step);
            n < |AudioIn(c, events)|
            && CarryFrame(PacketsOf(c.audio, AudioIn(c, events), n), 100001, 96, n, Samples(Sounds(events)[..n]),
                          true, false, Sounds(events)[n].opus, audioCipher, audioIv, got)
  {
    hide PacketsOf, CarryFrame, AudioIn, Sounds, Ticks, Samples;
    var c := MirrorConfig(videoCipher, videoIv, audioCipher, audioIv, step);
    SoundFrameIs(c, events, n);
    FrameIsCarried(c.audio, AudioIn(c, events), n, got);
  }

  lemma NothingYet(c: Config)
    ensures Inv(c, [], [], INITIAL)
  {
    FreshIsAfterNothing(c.video);
    FreshIsAfterNothing(c.audio);
  }

  /**
   Whole-run numbering: whatever was resent in between, the k-th first transmission of a stream carries
   sequence number k mod 2^16 and the stream's own SSRC.
   */
  lemma RunNumbering(c: Config, events: seq<Event>, audio: bool)
    ensures forall k :: 0 <= k < |Firsts(Run(c, events).log, audio)| ==>
              var q := ParseRtpPacket(Firsts(Run(c, events).log, audio)[k]);
              && q.Some?
              && q.value.header.sequenceNumber == k % TWO_16
              && q.value.header.ssrc == (if audio then c.audio.ssrc else c.video.ssrc)
  {
    hide ParseRtpPacket, AllPackets, Firsts, Run, After;
    EveryRun(c, events);
    forall k | 0 <= k < |Firsts(Run(c, events).log, audio)|
      ensures var q := ParseRtpPacket(Firsts(Run(c, events).log, audio)[k]);
              && q.Some?
              && q.value.header.sequenceNumber == k % TWO_16
              && q.value.header.ssrc == (if audio then c.audio.ssrc else c.video.ssrc)
    {
      if audio {
        SequenceNumbers(c.audio, AudioIn(c, events), k);
      } else {
        SequenceNumbers(c.video, VideoIn(c, events), k);
      }
    }
  }

  /** The counters a sender report quotes are the totals of what was first transmitted, mod 2^32. */
  lemma RunTotals(c: Config, events: seq<Event>)
    ensures var s := Run(c, events);
            && s.video.packetCount == |Firsts(s.log, false)| % TWO_32
            && s.video.octetCount == |Join(Firsts(s.log, false))| % TWO_32
            && s.video.timestamp == |VideoIn(c, events)| * c.rtpStep % TWO_32
            && s.audio.packetCount == |Firsts(s.log, true)| % TWO_32
            && s.audio.octetCount == |Join(Firsts(s.log, true))| % TWO_32
  {
    hide AllPackets, Firsts, Run, Holds, SentFrames;
    EveryRun(c, events);
    VideoSteps(c, events);
    ConstantStep(VideoIn(c, events), c.rtpStep);
  }

  lemma {:induction false} VideoSteps(c: Config, events: seq<Event>)
    ensures forall f :: f in VideoIn(c, events) ==> f.ticks == c.rtpStep
  {
    hide Run;
    if events != [] {
      VideoSteps(c, events[..|events| - 1]);
    }
  }

  /**
   Whole-run timing: packet `i` of video frame `n`, found in the run's first transmissions where the packets
   of the frames before it end, carries the timestamp n * step mod 2^32 and the frame's truncated id.
   */
  lemma RunTimestamps(c: Config, events: seq<Event>, n: nat, i: nat)
    requires n < |VideoIn(c, events)| && i < |PacketsOf(c.video, VideoIn(c, events), n)|
    ensures var k := |AllPackets(c.video, VideoIn(c, events)[..n])| + i;
            && k < |Firsts(Run(c, events).log, false)|
            && var q := ParseRtpPacket(Firsts(Run(c, events).log, false)[k]);
               q.Some? && q.value.header.rtpTimestamp == n * c.rtpStep % TWO_32 && q.value.header.frameId == n % TWO_8
  {
    hide *;
    var fs := VideoIn(c, events);
    FirstsAre(c, events);
    VideoSteps(c, events);
    assert forall f :: f in fs[..n] ==> f in fs;
    ConstantStep(fs[..n], c.rtpStep);
    PacketsOfIs(c.video, fs, n);
    PacketFields(c.video, fs[..n], fs[n], i);
    FrameStandsAt(c.video, fs, n, i);
  }

  /**
   The same for sound: packet `i` of audio frame `n` carries the samples of the frames before it, mod 2^32, and
   the frame's truncated id, and is marked as a key frame without a reference, as sound is configured.
   */
  lemma RunSoundTimestamps(c: Config, events: seq<Event>, n: nat, i: nat)
    ensures var fs, firsts := AudioIn(c, events), Firsts(Run(c, events).log, true);
            n < |fs| && i < |PacketsOf(c.audio, fs, n)| ==>
              var k := |AllPackets(c.audio, fs[..n])| + i;
              && k < |firsts|
              && var q := ParseRtpPacket(firsts[k]);
                 && q.Some? && q.value.header.rtpTimestamp == Ticks(fs[..n]) % TWO_32
                 && q.value.header.frameId == n % TWO_8
                 && (!c.audio.references ==> q.value.header.keyFrame && !q.value.header.hasReference)
  {
    hide *;
    var fs := AudioIn(c, events);
    if n < |fs| && i < |PacketsOf(c.audio, fs, n)| {
      FirstsAre(c, events);
      PacketsOfIs(c.audio, fs, n);
      PacketFields(c.audio, fs[..n], fs[n], i);
      FrameStandsAt(c.audio, fs, n, i);
    }
  }

  lemma FirstsAre(c: Config, events: seq<Event>)
    ensures Firsts(Run(c, events).log, false) == AllPackets(c.video, VideoIn(c, events))
    ensures Firsts(Run(c, events).log, true) == AllPackets(c.audio, AudioIn(c, events))
  {
    hide AllPackets, Firsts, Run, After;
    EveryRun(c, events);
  }

  lemma PacketsOfIs(cfg: StreamConfig, fs: seq<Input>, n: nat)
    requires n < |fs|
    ensures PacketsOf(cfg, fs, n) == FramePackets(cfg, fs[..n], fs[n])
  {
  }

  /** The packets of frame `n` among all first transmissions of a stream. */
  lemma {:induction false} FrameStandsAt(cfg: StreamConfig, fs: seq<Input>, n: nat, i: nat)
    requires n < |fs| && i < |PacketsOf(cfg, fs, n)|
    ensures var k := |AllPackets(cfg, fs[..n])| + i;
            k < |AllPackets(cfg, fs)| && AllPackets(cfg, fs)[k] == PacketsOf(cfg, fs, n)[i]
  {
    hide FramePackets;
    var init := fs[..|fs| - 1];
    if n < |init| {
      assert init[..n] == fs[..n];
      FrameStandsAt(cfg, init, n, i);
    }
  }

  /**
   The still-referenced guard over every run: once a stream's window is full, the id popped for the next
   frame is still queued if and only if the window reaches 256. With 60 and 120 the guard never fires.
   */
  lemma GuardOverRun(c: Config, events: seq<Event>, audio: bool)
    requires 0 < ConfigOf(c, audio).window
    ensures var s := StreamOf(Run(c, events), audio);
            var order := s.cache.order + [s.frameId % TWO_8];
            && (|order| > ConfigOf(c, audio).window <==> |InputsOf(c, events, audio)| >= ConfigOf(c, audio).window)
            && (|order| > ConfigOf(c, audio).window ==>
                  |order| == ConfigOf(c, audio).window + 1
                  && (order[0] in order[1..] <==> ConfigOf(c, audio).window >= TWO_8))
  {
    hide AllPackets, Firsts, Run, SentFrames, Fits;
    EveryRun(c, events);
    var cfg, fs, s := ConfigOf(c, audio), InputsOf(c, events, audio), StreamOf(Run(c, events), audio);
    QueueLength(cfg, fs, s);
    if |fs| >= cfg.window {
      GuardOfStream(cfg, fs, s);
    }
  }

  lemma QueueLength(cfg: StreamConfig, fs: seq<Input>, s: Stream)
    requires After(cfg, fs, s)
    ensures |s.cache.order| == Min(cfg.window, |fs|)
  {
    hide PacketsOf, AllPackets, Fits;
  }

  // ------------------------------------------------------------------ feedback

  function ConfigOf(c: Config, audio: bool): StreamConfig {
    if audio then c.audio else c.video
  }

  function InputsOf(c: Config, events: seq<Event>, audio: bool): seq<Input> {
    if audio then AudioIn(c, events) else VideoIn(c, events)
  }

  function StreamOf(s: Session, audio: bool): Stream {
    if audio then s.audio else s.video
  }

  /** One feedback packet is answered with exactly the cached packets its entries name, from its stream's cache. */
  lemma FeedbackAnswered(s: Session, senderSsrc: uint32, mediaSsrc: uint32, ack: byte, playoutMs: uint16,
      nacks: seq<Nack>, nowUs: int)
    requires |nacks| <= 255
    ensures var audio := mediaSsrc == AUDIO_SSRC;
            var t := HandleDatagram(s, CastFeedback(senderSsrc, mediaSsrc, ack, playoutMs, nacks), nowUs);
            && t.log == s.log + Tagged(audio, true, ResendAll(StreamOf(s, audio).cache.sent, nacks))
            && t.video == s.video && t.audio == s.audio && t.inbox == s.inbox && t.reference == s.reference
            && t.lastAck == (if audio then s.lastAck else ack)
            && t.lastLoss == (if audio then s.lastLoss else |nacks|)
  {
    hide CastFeedback, ResendAll, Nacks, Walk, MediaSsrc;
    var b := CastFeedback(senderSsrc, mediaSsrc, ack, playoutMs, nacks);
    FeedbackReadsBack(senderSsrc, mediaSsrc, ack, playoutMs, nacks);
    OneBlock(b);
    assert b[1] == PT_PSFB;
    assert HandleBlocks(HandleBlock(s, b, nowUs), [], nowUs) == HandleBlock(s, b, nowUs);
    assert HandleBlocks(s, [b], nowUs) == HandleBlock(s, b, nowUs);
  }

  lemma OneBlock(b: bytes)
    requires WellFormed(b)
    ensures Walk(b) == [b]
  {
    assert b + [] == b && Walk([]) == [];
    WalkStep(b, []);
  }

  /** Servicing a mailbox that holds one feedback packet sends reports if due, then the answer. */
  lemma ServiceOneFeedback(s: Session, env: Env, senderSsrc: uint32, mediaSsrc: uint32, ack: byte, playoutMs: uint16,
      nacks: seq<Nack>)
    requires |nacks| <= 255
    requires s.inbox == [CastFeedback(senderSsrc, mediaSsrc, ack, playoutMs, nacks)]
    ensures var audio := mediaSsrc == AUDIO_SSRC;
            && Service(s, env).log
               == SendReports(s, env).log + Tagged(audio, true, ResendAll(StreamOf(s, audio).cache.sent, nacks))
            && Service(s, env).video == s.video && Service(s, env).audio == s.audio
  {
    hide CastFeedback, HandleDatagram, ResendAll, Tagged, VideoReport, AudioReport;
    var feedback := CastFeedback(senderSsrc, mediaSsrc, ack, playoutMs, nacks);
    var r := SendReports(s, env);
    var t := r.(inbox := r.inbox[1..]);
    assert feedback[..Min(|feedback|, RECEIVE_BYTES)] == feedback;
    FeedbackAnswered(t, senderSsrc, mediaSsrc, ack, playoutMs, nacks, env.nowUs);
    var u := HandleDatagram(t, feedback, env.nowUs);
    assert Drain(u, RECEIVE_BUDGET - 1, env.nowUs) == u;
  }

  /**
   The playout clock loop. Once an XR packet with a reference time was handled, a report that is due is one
   datagram that splits into the sender report and an XR packet whose single DLRR block echoes the
   receiver's SSRC and the middle 32 bits of its last NTP timestamp; the report quotes the stream's totals.
   */
  lemma ReferenceIsEchoed(s: Session, xr: bytes, sub: bytes, heardUs: int, env: Env)
    requires IsXr(xr)
    requires LastReference(Walk(xr[8..])) == Some(sub)
    requires env.nowUs - s.lastSrUs >= REPORT_INTERVAL_US
    ensures var t := HandleBlock(s, xr, heardUs);
            var lrr := (GetBE32(sub, 4) * TWO_32 + GetBE32(sub, 8)) / TWO_16 % TWO_32;
            var sr := SenderReport(VIDEO_SSRC, env.ntpSeconds, env.ntpFraction, s.video.timestamp, s.video.packetCount,
                s.video.octetCount);
            && |SendReports(t, env).log| > |s.log|
            && exists echo :: SendReports(t, env).log[|s.log|] == Report(sr + echo)
                 && Walk(sr + echo) == [sr, echo] && IsXr(echo)
                 && Walk(echo[8..]) == [DlrrBlock(GetBE32(xr, 4), lrr, env.delay)]
  {
    hide SenderReport, XrDlrr, GetBE32, Walk, DlrrBlock, AudioReport;
    var t := HandleBlock(s, xr, heardUs);
    var rx := GetBE32(xr, 4);
    LastRrIsMiddle32(sub);
    assert t == s.(reference := Heard(rx, LastRr(sub), heardUs));
    CompoundReportSplits(VIDEO_SSRC, env.ntpSeconds, env.ntpFraction, s.video.timestamp, s.video.packetCount,
        s.video.octetCount, rx, LastRr(sub), env.delay);
    var echo := XrDlrr(VIDEO_SSRC, rx, LastRr(sub), env.delay);
    assert SendReports(t, env).log[|s.log|] == Report(VideoReport(t, env));
  }

  lemma InTagged(audio: bool, ps: seq<bytes>, p: bytes)
    requires p in ps
    ensures Media(audio, true, p) in Tagged(audio, true, ps)
  {
    var i :| 0 <= i < |ps| && ps[i] == p;
    assert Tagged(audio, true, ps)[i] == Media(audio, true, p);
  }
}
