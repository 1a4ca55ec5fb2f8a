/**
 The mirroring session as a state machine (optional/cast/MirrorSession.cpp): sending frames, servicing
 the receiver's RTCP, and what holds over every run of sends, arrivals and feedback.
 */
module MirrorModel {
  import opened Bytes
  import opened CastCrypto
  import opened Rtcp
  import opened RetransmitCache
  import opened MirrorStream

  const VIDEO_SSRC: uint32 := 100000
  const AUDIO_SSRC: uint32 := 100001
  const VIDEO_PAYLOAD_TYPE: byte := 127
  const AUDIO_PAYLOAD_TYPE: byte := 96
  const VIDEO_WINDOW := 60
  const AUDIO_WINDOW := 120
  const REPORT_INTERVAL_US := 200000
  const RECEIVE_BUDGET := 64
  const RECEIVE_BYTES := 2048

  /** A datagram handed to UDP: media of one stream, sent first or again, or a report. */
  datatype Datagram = Media(audio: bool, again: bool, data: bytes) | Report(data: bytes)

  /** The receiver reference time to echo, once one was heard. */
  datatype Reference = NoReference | Heard(receiverSsrc: uint32, lastRr: uint32, heardUs: int)

  datatype Session = Session(
    video: Stream,
    audio: Stream,
    started: bool,
    audioStarted: bool,
    lastSrUs: int,
    reference: Reference,
    lastAck: byte,
    lastLoss: byte,
    log: seq<Datagram>,
    inbox: seq<bytes>)

  const INITIAL := Session(FRESH, FRESH, true, false, 0, NoReference, 0xff, 0, [], [])

  datatype Config = Config(video: StreamConfig, audio: StreamConfig, rtpStep: uint32)

  function MirrorConfig(videoCipher: BlockCipher, videoIv: IvMask, audioCipher: BlockCipher, audioIv: IvMask,
      rtpStep: uint32): Config {
    Config(StreamConfig(VIDEO_SSRC, VIDEO_PAYLOAD_TYPE, VIDEO_WINDOW, true, videoCipher, videoIv),
           StreamConfig(AUDIO_SSRC, AUDIO_PAYLOAD_TYPE, AUDIO_WINDOW, false, audioCipher, audioIv), rtpStep)
  }

  datatype EncodedFrame = EncodedFrame(data: bytes, key: bool)

  /** The clock readings of one service round. */
  datatype Env = Env(nowUs: int, ntpSeconds: uint32, ntpFraction: uint32, delay: uint32)

  // ------------------------------------------------------------------ sending

  function Tagged(audio: bool, again: bool, packets: seq<bytes>): seq<Datagram> {
    seq(|packets|, i requires 0 <= i < |packets| => Media(audio, again, packets[i]))
  }

  lemma TaggedAppend(audio: bool, again: bool, a: seq<bytes>, b: seq<bytes>)
    ensures Tagged(audio, again, a + b) == Tagged(audio, again, a) + Tagged(audio, again, b)
  {
  }

  function VideoInput(c: Config, f: EncodedFrame): Input {
    Input(f.data, f.key, c.rtpStep)
  }

  function SendVideo(c: Config, s: Session, f: EncodedFrame): Session {
    s.(video := Advance(c.video, s.video, VideoInput(c, f)),
       log := s.log + Tagged(false, false, StepPackets(c.video, s.video, VideoInput(c, f))))
  }

  function SendVideoAll(c: Config, s: Session, frames: seq<EncodedFrame>): Session {
    if frames == [] then s
    else SendVideo(c, SendVideoAll(c, s, frames[..|frames| - 1]), frames[|frames| - 1])
  }

  function SendSound(c: Config, s: Session, f: Input): Session {
    s.(audio := Advance(c.audio, s.audio, f),
       log := s.log + Tagged(true, false, StepPackets(c.audio, s.audio, f)))
  }

  // ------------------------------------------------------------------ RTCP

  function VideoReport(s: Session, env: Env): bytes {
    SenderReport(VIDEO_SSRC, env.ntpSeconds, env.ntpFraction, s.video.timestamp, s.video.packetCount,
        s.video.octetCount)
    + (if s.reference.Heard? then XrDlrr(VIDEO_SSRC, s.reference.receiverSsrc, s.reference.lastRr, env.delay) else [])
  }

  function AudioReport(s: Session, env: Env): bytes {
    SenderReport(AUDIO_SSRC, env.ntpSeconds, env.ntpFraction, s.audio.timestamp, s.audio.packetCount,
        s.audio.octetCount)
  }

  function SendReports(s: Session, env: Env): Session {
    if env.nowUs - s.lastSrUs < REPORT_INTERVAL_US then s
    else
      s.(lastSrUs := env.nowUs,
         log := s.log + [Report(VideoReport(s, env))] + (if s.audioStarted then [Report(AudioReport(s, env))] else []))
  }

  /** The media SSRC decides the cache: audio's for the audio SSRC, video's for any other. */
  function HandleFeedback(s: Session, block: bytes): Session
    requires |block| >= 20
  {
    var audio := MediaSsrc(block) == AUDIO_SSRC;
    var cache := if audio then s.audio.cache else s.video.cache;
    var t := if audio then s else s.(lastAck := block[16], lastLoss := block[17]);
    t.(log := s.log + Tagged(audio, true, ResendAll(cache.sent, Nacks(block))))
  }

  function HandleXr(s: Session, block: bytes, nowUs: int): Session
    requires |block| >= 8
  {
    match LastReference(Walk(block[8..]))
    case Some(sub) => s.(reference := Heard(GetBE32(block, 4), LastRr(sub), nowUs))
    case None => s
  }

  function HandleBlock(s: Session, block: bytes, nowUs: int): Session {
    var t := if IsCastFeedback(block) then HandleFeedback(s, block) else s;
    if IsXr(block) then HandleXr(t, block, nowUs) else t
  }

  function HandleBlocks(s: Session, blocks: seq<bytes>, nowUs: int): Session
    decreases |blocks|
  {
    if blocks == [] then s else HandleBlocks(HandleBlock(s, blocks[0], nowUs), blocks[1..], nowUs)
  }

  function HandleDatagram(s: Session, datagram: bytes, nowUs: int): Session {
    HandleBlocks(s, Walk(datagram), nowUs)
  }

  /** At most `budget` datagrams are read, each cut at the receive buffer; an empty one ends the round. */
  function Drain(s: Session, budget: nat, nowUs: int): Session
    decreases budget
  {
    if budget == 0 || s.inbox == [] then s
    else
      var t := s.(inbox := s.inbox[1..]);
      if s.inbox[0] == [] then t
      else Drain(HandleDatagram(t, s.inbox[0][..Min(|s.inbox[0]|, RECEIVE_BYTES)], nowUs), budget - 1, nowUs)
  }

  function Service(s: Session, env: Env): Session {
    Drain(SendReports(s, env), RECEIVE_BUDGET, env.nowUs)
  }

  // ------------------------------------------------------------------ events and runs

  datatype Event =
    | SendFrame(frames: seq<EncodedFrame>, env: Env)
    | SendAudio(opus: bytes, samples: uint32, env: Env)
    | StartAudio
    | Arrive(datagram: bytes)
    | Stop

  function Apply(c: Config, s: Session, e: Event): Session {
    match e
    case SendFrame(frames, env) => if s.started then Service(SendVideoAll(c, s, frames), env) else s
    case SendAudio(opus, samples, env) =>
      if s.started && s.audioStarted then Service(SendSound(c, s, Input(opus, true, samples)), env) else s
    case StartAudio =>
      if s.started && !s.audioStarted then s.(audioStarted := true, audio := FRESH.(cache := s.audio.cache)) else s
    case Arrive(datagram) => s.(inbox := s.inbox + [datagram])
    case Stop => s.(started := false)
  }

  function Run(c: Config, events: seq<Event>): Session {
    if events == [] then INITIAL else Apply(c, Run(c, events[..|events| - 1]), events[|events| - 1])
  }

  function Inputs(c: Config, frames: seq<EncodedFrame>): seq<Input> {
    seq(|frames|, i requires 0 <= i < |frames| => VideoInput(c, frames[i]))
  }

  /** The video frames a run submitted, in order. */
  function VideoIn(c: Config, events: seq<Event>): seq<Input> {
    if events == [] then []
    else
      var init, last := events[..|events| - 1], events[|events| - 1];
      VideoIn(c, init) + (if last.SendFrame? && Run(c, init).started then Inputs(c, last.frames) else [])
  }

  /** The audio frames a run submitted, in order. */
  function AudioIn(c: Config, events: seq<Event>): seq<Input> {
    if events == [] then []
    else
      var init, last := events[..|events| - 1], events[|events| - 1];
      AudioIn(c, init)
      + (if last.SendAudio? && Run(c, init).started && Run(c, init).audioStarted then
          [Input(last.opus, true, last.samples)] else [])
  }

  // ------------------------------------------------------------------ the log

  /** The first transmissions of one stream, in order. */
  function Firsts(log: seq<Datagram>, audio: bool): seq<bytes> {
    if log == [] then []
    else
      var last := log[|log| - 1];
      Firsts(log[..|log| - 1], audio) + (if last.Media? && !last.again && last.audio == audio then [last.data] else [])
  }

  /** Every repeated media datagram is a byte-for-byte copy of an earlier first transmission of its stream. */
  ghost predicate RepeatsAreCopies(log: seq<Datagram>) {
    forall k :: 0 <= k < |log| && log[k].Media? && log[k].again ==> Media(log[k].audio, false, log[k].data) in log[..k]
  }

  lemma {:induction false} FirstsOfAppend(a: seq<Datagram>, b: seq<Datagram>, audio: bool)
    ensures Firsts(a + b, audio) == Firsts(a, audio) + Firsts(b, audio)
  {
    if b == [] {
      assert a + b == a;
    } else {
      var init := b[..|b| - 1];
      assert (a + b)[..|a + b| - 1] == a + init;
      FirstsOfAppend(a, init, audio);
    }
  }

  lemma {:induction false} FirstsOfTagged(tag: bool, again: bool, ps: seq<bytes>, audio: bool)
    ensures Firsts(Tagged(tag, again, ps), audio) == if tag == audio && !again then ps else []
  {
    if ps != [] {
      var init := ps[..|ps| - 1];
      assert Tagged(tag, again, ps)[..|ps| - 1] == Tagged(tag, again, init);
      FirstsOfTagged(tag, again, init, audio);
      assert ps == init + [ps[|ps| - 1]];
    }
  }

  lemma {:induction false} FirstsAreInLog(log: seq<Datagram>, audio: bool, p: bytes)
    requires p in Firsts(log, audio)
    ensures Media(audio, false, p) in log
  {
    if log != [] && p in Firsts(log[..|log| - 1], audio) {
      FirstsAreInLog(log[..|log| - 1], audio, p);
    }
  }

  lemma CopiesAfterAppend(log: seq<Datagram>, more: seq<Datagram>)
    requires RepeatsAreCopies(log)
    requires forall d :: d in more && d.Media? && d.again ==> Media(d.audio, false, d.data) in log
    ensures RepeatsAreCopies(log + more)
  {
    var all := log + more;
    forall k | 0 <= k < |all| && all[k].Media? && all[k].again
      ensures Media(all[k].audio, false, all[k].data) in all[..k]
    {
      if k < |log| {
        assert all[..k] == log[..k];
      } else {
        assert all[k] == more[k - |log|] && all[k] in more;
        assert all[..k] == log + more[..k - |log|];
      }
    }
  }

  // ------------------------------------------------------------------ the invariant

  /** After a run that submitted `vin` and `ain`. */
  ghost predicate Inv(c: Config, vin: seq<Input>, ain: seq<Input>, s: Session) {
    && After(c.video, vin, s.video)
    && After(c.audio, ain, s.audio)
    && Firsts(s.log, false) == AllPackets(c.video, vin)
    && Firsts(s.log, true) == AllPackets(c.audio, ain)
    && RepeatsAreCopies(s.log)
  }

  /** Reports and repeats change neither stream, whatever else they change. */
  lemma LogOnly(c: Config, vin: seq<Input>, ain: seq<Input>, s: Session, t: Session, more: seq<Datagram>)
    requires Inv(c, vin, ain, s)
    requires t.video == s.video && t.audio == s.audio && t.log == s.log + more
    requires forall d :: d in more && d.Media? ==> d.again && Media(d.audio, false, d.data) in s.log
    ensures Inv(c, vin, ain, t)
  {
    hide After, AllPackets;
    FirstsOfAppend(s.log, more, false);
    FirstsOfAppend(s.log, more, true);
    NoFirsts(more, false);
    NoFirsts(more, true);
    CopiesAfterAppend(s.log, more);
  }

  lemma {:induction false} NoFirsts(more: seq<Datagram>, audio: bool)
    requires forall d :: d in more && d.Media? ==> d.again
    ensures Firsts(more, audio) == []
  {
    if more != [] {
      NoFirsts(more[..|more| - 1], audio);
    }
  }

  lemma VideoKeeps(c: Config, vin: seq<Input>, ain: seq<Input>, s: Session, f: EncodedFrame)
    requires Inv(c, vin, ain, s)
    ensures Inv(c, vin + [VideoInput(c, f)], ain, SendVideo(c, s, f))
  {
    hide After, StepPackets, FramePackets, Advance;
    var x := VideoInput(c, f);
    var ps := StepPackets(c.video, s.video, x);
    AdvanceKeeps(c.video, vin, s.video, x);
    assert (vin + [x])[..|vin|] == vin;
    FirstsOfAppend(s.log, Tagged(false, false, ps), false);
    FirstsOfAppend(s.log, Tagged(false, false, ps), true);
    FirstsOfTagged(false, false, ps, false);
    FirstsOfTagged(false, false, ps, true);
    CopiesAfterAppend(s.log, Tagged(false, false, ps));
  }

  lemma SoundKeeps(c: Config, vin: seq<Input>, ain: seq<Input>, s: Session, x: Input)
    requires Inv(c, vin, ain, s)
    ensures Inv(c, vin, ain + [x], SendSound(c, s, x))
  {
    hide After, StepPackets, FramePackets, Advance;
    var ps := StepPackets(c.audio, s.audio, x);
    AdvanceKeeps(c.audio, ain, s.audio, x);
    assert (ain + [x])[..|ain|] == ain;
    FirstsOfAppend(s.log, Tagged(true, false, ps), false);
    FirstsOfAppend(s.log, Tagged(true, false, ps), true);
    FirstsOfTagged(true, false, ps, false);
    FirstsOfTagged(true, false, ps, true);
    CopiesAfterAppend(s.log, Tagged(true, false, ps));
  }

  lemma {:induction false} VideoAllKeeps(c: Config, vin: seq<Input>, ain: seq<Input>, s: Session,
      frames: seq<EncodedFrame>)
    requires Inv(c, vin, ain, s)
    ensures Inv(c, vin + Inputs(c, frames), ain, SendVideoAll(c, s, frames))
  {
    hide Inv, SendVideo;
    if frames == [] {
      assert vin + Inputs(c, frames) == vin;
    } else {
      var init, last := frames[..|frames| - 1], frames[|frames| - 1];
      VideoAllKeeps(c, vin, ain, s, init);
      VideoKeeps(c, vin + Inputs(c, init), ain, SendVideoAll(c, s, init), last);
      assert vin + Inputs(c, frames) == vin + Inputs(c, init) + [VideoInput(c, last)];
    }
  }

  lemma BlockKeeps(c: Config, vin: seq<Input>, ain: seq<Input>, s: Session, block: bytes, nowUs: int)
    requires Inv(c, vin, ain, s)
    ensures Inv(c, vin, ain, HandleBlock(s, block, nowUs))
  {
    hide After, AllPackets, ResendAll, Firsts, RepeatsAreCopies, Nacks, IsCastFeedback;
    if IsCastFeedback(block) {
      assert |block| >= 20 by { IsFeedbackLong(block); }
      var audio := MediaSsrc(block) == AUDIO_SSRC;
      var cache := if audio then s.audio.cache else s.video.cache;
      var ps := ResendAll(cache.sent, Nacks(block));
      forall d | d in Tagged(audio, true, ps) && d.Media?
        ensures d.again && Media(d.audio, false, d.data) in s.log
      {
        if audio {
          ResendsAreCopies(c.audio, ain, s.audio, Nacks(block), d.data);
        } else {
          ResendsAreCopies(c.video, vin, s.video, Nacks(block), d.data);
        }
        FirstsAreInLog(s.log, audio, d.data);
      }
      LogOnly(c, vin, ain, s, HandleFeedback(s, block), Tagged(audio, true, ps));
    }
  }

  lemma IsFeedbackLong(block: bytes)
    requires IsCastFeedback(block)
    ensures |block| >= 20
  {
  }

  lemma {:induction false} BlocksKeep(c: Config, vin: seq<Input>, ain: seq<Input>, s: Session, blocks: seq<bytes>,
      nowUs: int)
    requires Inv(c, vin, ain, s)
    ensures Inv(c, vin, ain, HandleBlocks(s, blocks, nowUs))
    decreases |blocks|
  {
    hide Inv, HandleBlock;
    if blocks != [] {
      BlockKeeps(c, vin, ain, s, blocks[0], nowUs);
      BlocksKeep(c, vin, ain, HandleBlock(s, blocks[0], nowUs), blocks[1..], nowUs);
    }
  }

  lemma {:induction false} DrainKeeps(c: Config, vin: seq<Input>, ain: seq<Input>, s: Session, budget: nat, nowUs: int)
    requires Inv(c, vin, ain, s)
    ensures Inv(c, vin, ain, Drain(s, budget, nowUs))
    decreases budget
  {
    hide After, AllPackets, Firsts, RepeatsAreCopies, HandleBlocks, Walk;
    if budget > 0 && s.inbox != [] && s.inbox[0] != [] {
      var t := s.(inbox := s.inbox[1..]);
      var dg := s.inbox[0][..Min(|s.inbox[0]|, RECEIVE_BYTES)];
      BlocksKeep(c, vin, ain, t, Walk(dg), nowUs);
      DrainKeeps(c, vin, ain, HandleDatagram(t, dg, nowUs), budget - 1, nowUs);
    }
  }

  lemma ServiceKeeps(c: Config, vin: seq<Input>, ain: seq<Input>, s: Session, env: Env)
    requires Inv(c, vin, ain, s)
    ensures Inv(c, vin, ain, Service(s, env))
  {
    hide Inv, Drain, VideoReport, AudioReport;
    var more := SendReports(s, env).log[|s.log|..];
    assert SendReports(s, env).log == s.log + more;
    LogOnly(c, vin, ain, s, SendReports(s, env), more);
    DrainKeeps(c, vin, ain, SendReports(s, env), RECEIVE_BUDGET, env.nowUs);
  }
}
