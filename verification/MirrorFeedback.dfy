/**
 What servicing the mailbox does, for any datagrams in it (optional/cast/MirrorSession.cpp), and the two
 feedback loops over every run: recovery of lost packets, and the echo of the receiver's clock.
 */
module MirrorFeedback {
  import opened Bytes
  import opened Options
  import opened CastCrypto
  import opened CastReassembly
  import opened Rtcp
  import opened RetransmitCache
  import opened MirrorStream
  import opened MirrorModel
  import opened MirrorRuns

  // ------------------------------------------------------------------ one service round

  /** The RTCP blocks one round visits: those of every datagram read, up to the budget or an empty datagram. */
  function RoundBlocks(inbox: seq<bytes>, budget: nat): seq<bytes>
    decreases budget
  {
    if budget == 0 || inbox == [] || inbox[0] == [] then []
    else Walk(inbox[0][..Min(|inbox[0]|, RECEIVE_BYTES)]) + RoundBlocks(inbox[1..], budget - 1)
  }

  /** What one block is answered with, from the two caches. */
  function Answer(video: Table, audio: Table, block: bytes): seq<Datagram> {
    if !IsCastFeedback(block) then []
    else
      var sound := MediaSsrc(block) == AUDIO_SSRC;
      Tagged(sound, true, ResendAll(if sound then audio else video, Nacks(block)))
  }

  function Answers(video: Table, audio: Table, blocks: seq<bytes>): seq<Datagram> {
    if blocks == [] then [] else Answer(video, audio, blocks[0]) + Answers(video, audio, blocks[1..])
  }

  /** The reference time to echo after the blocks: the last one heard in them, else the one known before. */
  function ReferenceAfter(known: Reference, blocks: seq<bytes>, nowUs: int): Reference {
    if blocks == [] then known
    else
      var init, last := blocks[..|blocks| - 1], blocks[|blocks| - 1];
      if IsXr(last) && LastReference(Walk(last[8..])).Some? then
        Heard(GetBE32(last, 4), LastRr(LastReference(Walk(last[8..])).value), nowUs)
      else ReferenceAfter(known, init, nowUs)
  }

  lemma {:induction false} ReferenceAppend(known: Reference, a: seq<bytes>, b: seq<bytes>, nowUs: int)
    ensures ReferenceAfter(known, a + b, nowUs) == ReferenceAfter(ReferenceAfter(known, a, nowUs), b, nowUs)
  {
    hide Walk, LastRr;
    var all := a + b;
    if b == [] {
      assert all == a;
    } else {
      assert all[..|all| - 1] == a + b[..|b| - 1];
      ReferenceAppend(known, a, b[..|b| - 1], nowUs);
    }
  }

  lemma {:induction false} AnswersAppend(video: Table, audio: Table, a: seq<bytes>, b: seq<bytes>)
    ensures Answers(video, audio, a + b) == Answers(video, audio, a) + Answers(video, audio, b)
  {
    hide Answer;
    if a == [] {
      assert a + b == b;
    } else {
      assert (a + b)[1..] == a[1..] + b;
      AnswersAppend(video, audio, a[1..], b);
    }
  }

  /** From `s` to `t` the blocks were handled: answered, and their reference kept. */
  ghost predicate Handled(s: Session, t: Session, blocks: seq<bytes>, nowUs: int) {
    && t.video == s.video && t.audio == s.audio && t.lastSrUs == s.lastSrUs
    && t.log == s.log + Answers(s.video.cache.sent, s.audio.cache.sent, blocks)
    && t.reference == ReferenceAfter(s.reference, blocks, nowUs)
  }

  lemma HandledThen(s: Session, t: Session, u: Session, a: seq<bytes>, b: seq<bytes>, nowUs: int)
    requires Handled(s, t, a, nowUs) && Handled(t, u, b, nowUs)
    ensures Handled(s, u, a + b, nowUs)
  {
    hide Answers, ReferenceAfter;
    AnswersAppend(s.video.cache.sent, s.audio.cache.sent, a, b);
    ReferenceAppend(s.reference, a, b, nowUs);
  }

  lemma BlockIsHandled(s: Session, block: bytes, nowUs: int)
    ensures Handled(s, HandleBlock(s, block, nowUs), [block], nowUs)
    ensures HandleBlock(s, block, nowUs).inbox == s.inbox
  {
    hide Walk, LastRr, Tagged, ResendAll, Nacks, MediaSsrc;
    assert [block][..0] == [] && [block][1..] == [];
    assert Answers(s.video.cache.sent, s.audio.cache.sent, []) == []
           && ReferenceAfter(s.reference, [], nowUs) == s.reference;
    assert Answers(s.video.cache.sent, s.audio.cache.sent, [block])
           == Answer(s.video.cache.sent, s.audio.cache.sent, block);
    assert s.log + [] == s.log;
  }

  lemma NothingHandled(s: Session, nowUs: int)
    ensures Handled(s, s, [], nowUs)
  {
  }

  lemma {:induction false} BlocksAreHandled(s: Session, blocks: seq<bytes>, nowUs: int)
    ensures Handled(s, HandleBlocks(s, blocks, nowUs), blocks, nowUs)
    ensures HandleBlocks(s, blocks, nowUs).inbox == s.inbox
    decreases |blocks|
  {
    hide Handled, HandleBlock;
    if blocks == [] {
      NothingHandled(s, nowUs);
    } else {
      var t := HandleBlock(s, blocks[0], nowUs);
      BlockIsHandled(s, blocks[0], nowUs);
      BlocksAreHandled(t, blocks[1..], nowUs);
      HandledThen(s, t, HandleBlocks(s, blocks, nowUs), [blocks[0]], blocks[1..], nowUs);
      assert [blocks[0]] + blocks[1..] == blocks;
    }
  }

  lemma MailboxAside(s: Session, t: Session, u: Session, blocks: seq<bytes>, nowUs: int)
    requires t == s.(inbox := t.inbox) && Handled(t, u, blocks, nowUs)
    ensures Handled(s, u, blocks, nowUs)
  {
  }

  /** Draining any mailbox handles exactly the blocks of the round. */
  lemma {:induction false} DrainIsHandled(s: Session, budget: nat, nowUs: int)
    ensures Handled(s, Drain(s, budget, nowUs), RoundBlocks(s.inbox, budget), nowUs)
    decreases budget
  {
    hide Handled, HandleBlocks, Walk;
    if budget == 0 || s.inbox == [] {
      NothingHandled(s, nowUs);
    } else {
      var t := s.(inbox := s.inbox[1..]);
      if s.inbox[0] == [] {
        NothingHandled(t, nowUs);
        MailboxAside(s, t, t, [], nowUs);
      } else {
        var dg := s.inbox[0][..Min(|s.inbox[0]|, RECEIVE_BYTES)];
        var u := HandleDatagram(t, dg, nowUs);
        BlocksAreHandled(t, Walk(dg), nowUs);
        DrainIsHandled(u, budget - 1, nowUs);
        HandledThen(t, u, Drain(u, budget - 1, nowUs), Walk(dg), RoundBlocks(t.inbox, budget - 1), nowUs);
        MailboxAside(s, t, Drain(u, budget - 1, nowUs), RoundBlocks(s.inbox, budget), nowUs);
      }
    }
  }

  /**
   A service round, for any mailbox: the reports if due, then for every feedback block of every datagram
   read exactly the cached packets its entries name, from the cache its SSRC selects.
   */
  lemma ServiceAnswers(s: Session, env: Env)
    ensures var blocks := RoundBlocks(s.inbox, RECEIVE_BUDGET);
            var t := Service(s, env);
            && t.log == SendReports(s, env).log + Answers(s.video.cache.sent, s.audio.cache.sent, blocks)
            && t.reference == ReferenceAfter(s.reference, blocks, env.nowUs)
            && t.video == s.video && t.audio == s.audio
  {
    hide Drain, RoundBlocks, Answers, ReferenceAfter, VideoReport, AudioReport;
    DrainIsHandled(SendReports(s, env), RECEIVE_BUDGET, env.nowUs);
  }

  /** Some feedback block for this stream holds the entry. */
  ghost predicate AskedFor(blocks: seq<bytes>, audio: bool, nack: Nack) {
    exists b :: b in blocks && IsCastFeedback(b) && (MediaSsrc(b) == AUDIO_SSRC) == audio && nack in Nacks(b)
  }

  lemma {:induction false} AnswersHold(video: Table, audio: Table, blocks: seq<bytes>, b: bytes, d: Datagram)
    requires b in blocks && d in Answer(video, audio, b)
    ensures d in Answers(video, audio, blocks)
  {
    hide Answer;
    if b != blocks[0] {
      AnswersHold(video, audio, blocks[1..], b, d);
    }
  }

  /** Whatever an entry asks for, in any block of the round, is sent. */
  lemma AskedIsAnswered(video: Table, audio: Table, blocks: seq<bytes>, sound: bool, nack: Nack, p: bytes)
    requires AskedFor(blocks, sound, nack) && p in Resends(if sound then audio else video, nack)
    ensures Media(sound, true, p) in Answers(video, audio, blocks)
  {
    hide Answers, Nacks, Resends, ResendAll, Tagged, MediaSsrc;
    var b :| b in blocks && IsCastFeedback(b) && (MediaSsrc(b) == AUDIO_SSRC) == sound && nack in Nacks(b);
    var cache := if sound then audio else video;
    var k :| 0 <= k < |Nacks(b)| && Nacks(b)[k] == nack;
    ResendAllExactly(cache, Nacks(b), p);
    InTagged(sound, ResendAll(cache, Nacks(b)), p);
    AnswersHold(video, audio, blocks, b, Media(sound, true, p));
  }

  // ------------------------------------------------------------------ the events that serve

  /** The event sends media, and so services the mailbox afterwards. */
  predicate Serves(s: Session, e: Event) {
    (e.SendFrame? && s.started) || (e.SendAudio? && s.started && s.audioStarted)
  }

  /** The session with the event's media sent, before the service round. */
  function Submitted(c: Config, s: Session, e: Event): Session
    requires Serves(s, e)
  {
    if e.SendFrame? then SendVideoAll(c, s, e.frames) else SendSound(c, s, Input(e.opus, true, e.samples))
  }

  lemma {:induction false} VideoAllExtends(c: Config, s: Session, frames: seq<EncodedFrame>)
    ensures var t := SendVideoAll(c, s, frames);
            s.log <= t.log && t.inbox == s.inbox && t.reference == s.reference && t.lastSrUs == s.lastSrUs
  {
    hide Advance, StepPackets;
    if frames != [] {
      VideoAllExtends(c, s, frames[..|frames| - 1]);
    }
  }

  lemma SubmittedExtends(c: Config, s: Session, e: Event)
    requires Serves(s, e)
    ensures var t := Submitted(c, s, e);
            s.log <= t.log && t.inbox == s.inbox && t.reference == s.reference && t.lastSrUs == s.lastSrUs
    ensures Apply(c, s, e) == Service(Submitted(c, s, e), e.env)
  {
    hide Advance, StepPackets, Service, SendVideoAll;
    if e.SendFrame? {
      VideoAllExtends(c, s, e.frames);
    }
  }

  lemma ReportsExtend(s: Session, env: Env)
    ensures s.log <= SendReports(s, env).log
  {
    hide VideoReport, AudioReport;
  }

  /** No event takes anything back from the log; only the events that serve add to it, or hear a reference. */
  lemma ApplyExtends(c: Config, s: Session, e: Event)
    ensures s.log <= Apply(c, s, e).log
    ensures !Serves(s, e) ==> Apply(c, s, e).log == s.log && Apply(c, s, e).reference == s.reference
  {
    hide Service, SendVideoAll, SendSound, SendReports, Answers, RoundBlocks, ReferenceAfter;
    if Serves(s, e) {
      SubmittedExtends(c, s, e);
      ReportsExtend(Submitted(c, s, e), e.env);
      ServiceAnswers(Submitted(c, s, e), e.env);
    }
  }

  // ------------------------------------------------------------------ runs that go on

  lemma RunSnoc(c: Config, events: seq<Event>, e: Event)
    ensures Run(c, events + [e]) == Apply(c, Run(c, events), e)
    ensures InputsOf(c, events, true) <= InputsOf(c, events + [e], true)
    ensures InputsOf(c, events, false) <= InputsOf(c, events + [e], false)
  {
    hide Apply;
    assert (events + [e])[..|events|] == events;
  }

  lemma {:induction false} RunExtends(c: Config, events: seq<Event>, later: seq<Event>, audio: bool)
    ensures Run(c, events).log <= Run(c, events + later).log
    ensures InputsOf(c, events, audio) <= InputsOf(c, events + later, audio)
  {
    hide Run, Apply, InputsOf;
    if later == [] {
      assert events + later == events;
    } else {
      var init, last := later[..|later| - 1], later[|later| - 1];
      RunExtends(c, events, init, audio);
      assert events + later == (events + init) + [last];
      RunSnoc(c, events + init, last);
      ApplyExtends(c, Run(c, events + init), last);
    }
  }

  /** A frame's packets do not depend on the frames after it. */
  lemma PacketsStay(cfg: StreamConfig, fs: seq<Input>, gs: seq<Input>, n: nat)
    requires fs <= gs && n < |fs|
    ensures PacketsOf(cfg, fs, n) == PacketsOf(cfg, gs, n)
  {
    assert fs[..n] == gs[..n];
  }

  // ------------------------------------------------------------------ recovery

  /** Frame `n` of the stream was submitted, and is still in its window. */
  predicate InWindow(c: Config, events: seq<Event>, audio: bool, n: nat) {
    n < |InputsOf(c, events, audio)| <= n + ConfigOf(c, audio).window
  }

  /**
   After `before`, the event `e` serves a mailbox in which some entry for this stream names packet `i` of
   frame `n`, in any block of any datagram the round reads, the frame still being in its window.
   */
  ghost predicate Asks(c: Config, before: seq<Event>, e: Event, audio: bool, n: nat, i: nat) {
    && Serves(Run(c, before), e) && InWindow(c, before + [e], audio, n)
    && exists nack :: AskedFor(RoundBlocks(Run(c, before).inbox, RECEIVE_BUDGET), audio, nack)
                      && nack.frameId == n % TWO_8 && Covers(nack, i)
  }

  /** Packet `i` of frame `n` is asked for at some event of `later`. */
  ghost predicate AskedDuring(c: Config, events: seq<Event>, later: seq<Event>, audio: bool, n: nat, i: nat) {
    exists j :: 0 <= j < |later| && Asks(c, events + later[..j], later[j], audio, n, i)
  }

  lemma AskedIsSent(c: Config, before: seq<Event>, e: Event, audio: bool, n: nat, i: nat)
    requires ConfigOf(c, audio).window <= TWO_8 && Asks(c, before, e, audio, n, i)
    requires i < |PacketsOf(ConfigOf(c, audio), InputsOf(c, before + [e], audio), n)|
    ensures Run(c, before).log <= Run(c, before + [e]).log
    ensures Media(audio, true, PacketsOf(ConfigOf(c, audio), InputsOf(c, before + [e], audio), n)[i])
         in Run(c, before + [e]).log[|Run(c, before).log|..]
  {
    hide Run, Apply, Submitted, Service, SendReports, Answers, RoundBlocks, AskedFor, ReferenceAfter, Resends, InputsOf,
      PacketsOf, After, AllPackets, Firsts, RepeatsAreCopies;
    var s := Run(c, before);
    var t := Submitted(c, s, e);
    var cfg, fs := ConfigOf(c, audio), InputsOf(c, before + [e], audio);
    var p := PacketsOf(cfg, fs, n)[i];
    RunSnoc(c, before, e);
    SubmittedExtends(c, s, e);
    ReportsExtend(t, e.env);
    ServiceAnswers(t, e.env);
    EveryRun(c, before + [e]);
    StreamAfterRun(c, before + [e], audio);
    WindowIsCached(cfg, fs, StreamOf(Run(c, before + [e]), audio), n);
    var blocks := RoundBlocks(s.inbox, RECEIVE_BUDGET);
    var nack :| AskedFor(blocks, audio, nack) && nack.frameId == n % TWO_8 && Covers(nack, i);
    ResendsExactly(StreamOf(t, audio).cache.sent, nack, p);
    AskedIsAnswered(t.video.cache.sent, t.audio.cache.sent, blocks, audio, nack, p);
    InSuffix(SendReports(t, e.env).log, Answers(t.video.cache.sent, t.audio.cache.sent, blocks), |s.log|,
        Media(audio, true, p));
  }

  lemma StreamAfterRun(c: Config, events: seq<Event>, audio: bool)
    ensures After(ConfigOf(c, audio), InputsOf(c, events, audio), StreamOf(Run(c, events), audio))
  {
    hide After, Run;
    EveryRun(c, events);
  }

  lemma InSuffix(a: seq<Datagram>, b: seq<Datagram>, from: nat, d: Datagram)
    requires from <= |a| && d in b
    ensures d in (a + b)[from..]
  {
    var k :| 0 <= k < |b| && b[k] == d;
    assert (a + b)[from..][|a| - from + k] == d;
  }

  /** What is sent during one event of a run is sent during the run. */
  lemma SentDuring(c: Config, events: seq<Event>, later: seq<Event>, j: nat, d: Datagram)
    requires j < |later|
    requires Run(c, events + later[..j]).log <= Run(c, events + later[..j + 1]).log
    requires d in Run(c, events + later[..j + 1]).log[|Run(c, events + later[..j]).log|..]
    ensures Run(c, events).log <= Run(c, events + later).log && d in Run(c, events + later).log[|Run(c, events).log|..]
  {
    hide Run;
    RunExtends(c, events, later[..j], true);
    RunExtends(c, events + later[..j + 1], later[j + 1..], true);
    RunExtends(c, events, later, true);
    assert (events + later[..j + 1]) + later[j + 1..] == events + later;
    var m, log := Run(c, events + later[..j]).log, Run(c, events + later[..j + 1]).log;
    var k :| 0 <= k < |log[|m|..]| && log[|m|..][k] == d;
    assert Run(c, events + later).log[|m| + k] == d;
    assert Run(c, events + later).log[|Run(c, events).log|..][|m| + k - |Run(c, events).log|] == d;
  }

  /** The data of frame `n` as the events handed it over. */
  function DataOf(events: seq<Event>, audio: bool, n: nat): Option<bytes> {
    if audio then if n < |Sounds(events)| then Some(Sounds(events)[n].opus) else None
    else if n < |Frames(events)| then Some(Frames(events)[n].data) else None
  }

  lemma DataIs(c: Config, events: seq<Event>, audio: bool, n: nat)
    requires n < |InputsOf(c, events, audio)|
    ensures DataOf(events, audio, n) == Some(InputsOf(c, events, audio)[n].data)
  {
    hide VideoIn, AudioIn, Frames, Sounds;
    SubmittedAre(c, events);
  }

  /** The receiver's frame: nothing but packets of it, all it held and all it was sent since. */
  ghost predicate Receives(got: seq<bytes>, ps: seq<bytes>, held: seq<bytes>, audio: bool, sentNow: seq<Datagram>) {
    OnlyFrom(got, ps) && forall p :: p in ps && (p in held || Media(audio, true, p) in sentNow) ==> p in got
  }

  /**
   Recovery, over every run and every continuation of it. A receiver holds any part of a frame of at most
   65536 packets. If each other packet of the frame is asked for at some later event that serves the
   mailbox, video or audio, by an entry in any block of any datagram that round reads, while the frame is in
   its window, then the datagrams sent meanwhile are enough: what the receiver then has of the frame, in any
   order and with any repeats, reassembles and decrypts to what was submitted.
   */
  lemma RunRecoversFrame(
      c: Config, events: seq<Event>, later: seq<Event>, audio: bool, n: nat, held: seq<bytes>, got: seq<bytes>)
    requires ConfigOf(c, audio).window <= TWO_8
    ensures var cfg, fs := ConfigOf(c, audio), InputsOf(c, events + later, audio);
            && Run(c, events).log <= Run(c, events + later).log
            && (n < |fs| && |PacketsOf(cfg, fs, n)| <= TWO_16 ==>
                  var ps := PacketsOf(cfg, fs, n);
                  && (forall i :: 0 <= i < |ps| && ps[i] !in held ==> AskedDuring(c, events, later, audio, n, i))
                  && Receives(got, ps, held, audio, Run(c, events + later).log[|Run(c, events).log|..])
                  ==> Decrypt(cfg.cipher, cfg.ivMask, n % TWO_32, Reassembled(got)) == fs[n].data
                      && DataOf(events + later, audio, n) == Some(fs[n].data))
  {
    hide Reassembled, Decrypt, Run, InputsOf, PacketsOf, Asks, DataOf;
    var cfg, fs := ConfigOf(c, audio), InputsOf(c, events + later, audio);
    RunExtends(c, events, later, audio);
    if n < |fs| && |PacketsOf(cfg, fs, n)| <= TWO_16 {
      var ps := PacketsOf(cfg, fs, n);
      if (forall i :: 0 <= i < |ps| && ps[i] !in held ==> AskedDuring(c, events, later, audio, n, i))
         && Receives(got, ps, held, audio, Run(c, events + later).log[|Run(c, events).log|..])
      {
        forall p | p in ps ensures p in got {
          if p !in held {
            var i :| 0 <= i < |ps| && ps[i] == p;
            AskedReaches(c, events, later, audio, n, i);
          }
        }
        WholeFrameDecrypts(cfg, fs, n, got);
        DataIs(c, events + later, audio, n);
      }
    }
  }

  lemma AskedReaches(c: Config, events: seq<Event>, later: seq<Event>, audio: bool, n: nat, i: nat)
    requires ConfigOf(c, audio).window <= TWO_8 && AskedDuring(c, events, later, audio, n, i)
    requires n < |InputsOf(c, events + later, audio)|
    requires i < |PacketsOf(ConfigOf(c, audio), InputsOf(c, events + later, audio), n)|
    ensures Run(c, events).log <= Run(c, events + later).log
    ensures Media(audio, true, PacketsOf(ConfigOf(c, audio), InputsOf(c, events + later, audio), n)[i])
         in Run(c, events + later).log[|Run(c, events).log|..]
  {
    hide Run, InputsOf, PacketsOf, Asks;
    var j :| 0 <= j < |later| && Asks(c, events + later[..j], later[j], audio, n, i);
    var before, after := events + later[..j], events + later[..j + 1];
    assert before + [later[j]] == after && after + later[j + 1..] == events + later;
    RunExtends(c, after, later[j + 1..], audio);
    AsksInWindow(c, before, later[j], audio, n, i);
    PacketsStay(ConfigOf(c, audio), InputsOf(c, after, audio), InputsOf(c, events + later, audio), n);
    AskedIsSent(c, before, later[j], audio, n, i);
    SentDuring(c, events, later, j, Media(audio, true, PacketsOf(ConfigOf(c, audio), InputsOf(c, after, audio), n)[i]));
  }

  lemma AsksInWindow(c: Config, before: seq<Event>, e: Event, audio: bool, n: nat, i: nat)
    requires Asks(c, before, e, audio, n, i)
    ensures n < |InputsOf(c, before + [e], audio)|
  {
  }

  /** A receiver's feedback arrives on a drained session, and is serviced after the next frames are sent. */
  function Exchange(c: Config, events: seq<Event>, feedback: bytes, frames: seq<EncodedFrame>, env: Env): seq<Event> {
    events + [Arrive(feedback)] + [SendFrame(frames, env)]
  }

  /** Frame `n` of a stream is still in its window after `events`, and was cut into at most 65536 packets. */
  ghost predicate Recoverable(c: Config, events: seq<Event>, audio: bool, n: nat) {
    && n < |InputsOf(c, events, audio)| <= n + ConfigOf(c, audio).window
    && |PacketsOf(ConfigOf(c, audio), InputsOf(c, events, audio), n)| <= TWO_16
  }

  /**
   The simplest case, end to end: the missing packets are reported in one feedback packet, which arrives on
   a drained session and is serviced after the next frames are sent.
   */
  lemma FeedbackRecoversFrame(
      c: Config, events: seq<Event>, frames: seq<EncodedFrame>, env: Env, audio: bool, n: nat,
      held: seq<bytes>, nacks: seq<Nack>, senderSsrc: uint32, ack: byte, playoutMs: uint16, got: seq<bytes>)
    requires c.video.ssrc == VIDEO_SSRC && c.audio.ssrc == AUDIO_SSRC
    requires ConfigOf(c, audio).window <= TWO_8 && |nacks| <= 255
    requires Run(c, events).started && Run(c, events).inbox == []
    ensures var cfg := ConfigOf(c, audio);
            var after := Exchange(c, events, CastFeedback(senderSsrc, cfg.ssrc, ack, playoutMs, nacks), frames, env);
            && |Run(c, events).log| <= |Run(c, after).log|
            && (Recoverable(c, after, audio, n) ==>
                  var ps := PacketsOf(cfg, InputsOf(c, after, audio), n);
                  CoversMissing(ps, held, nacks, n) && OnlyFrom(got, ps)
                  && (forall p ::
                        p in ps && (p in held || Media(audio, true, p) in Run(c, after).log[|Run(c, events).log|..]) ==>
                          p in got)
                  ==>
                  Decrypt(cfg.cipher, cfg.ivMask, n % TWO_32, Reassembled(got)) == InputsOf(c, after, audio)[n].data
                  && DataOf(after, audio, n) == Some(InputsOf(c, after, audio)[n].data))
  {
    hide Reassembled, Decrypt, Run, InputsOf, PacketsOf, CastFeedback, OnlyFrom, DataOf;
    var cfg := ConfigOf(c, audio);
    var feedback := CastFeedback(senderSsrc, cfg.ssrc, ack, playoutMs, nacks);
    var e := SendFrame(frames, env);
    var later := [Arrive(feedback), e];
    var after := Exchange(c, events, feedback, frames, env);
    assert events + later == after;
    RunRecoversFrame(c, events, later, audio, n, held, got);
    if Recoverable(c, after, audio, n) {
      var ps := PacketsOf(cfg, InputsOf(c, after, audio), n);
      if CoversMissing(ps, held, nacks, n) {
        forall i | 0 <= i < |ps| && ps[i] !in held ensures AskedDuring(c, events, later, audio, n, i) {
          var k :| 0 <= k < |nacks| && nacks[k].frameId == n % TWO_8 && Covers(nacks[k], i);
          FeedbackAsks(c, events, frames, env, audio, n, nacks, senderSsrc, ack, playoutMs, nacks[k], i);
          assert later[..1] == [Arrive(feedback)];
          assert Asks(c, events + later[..1], later[1], audio, n, i);
        }
      }
    }
  }

  lemma FeedbackAsks(
      c: Config, events: seq<Event>, frames: seq<EncodedFrame>, env: Env, audio: bool, n: nat,
      nacks: seq<Nack>, senderSsrc: uint32, ack: byte, playoutMs: uint16, nack: Nack, i: nat)
    requires c.video.ssrc == VIDEO_SSRC && c.audio.ssrc == AUDIO_SSRC && |nacks| <= 255
    requires Run(c, events).started && Run(c, events).inbox == []
    requires nack in nacks && nack.frameId == n % TWO_8 && Covers(nack, i)
    requires var feedback := CastFeedback(senderSsrc, ConfigOf(c, audio).ssrc, ack, playoutMs, nacks);
             InWindow(c, Exchange(c, events, feedback, frames, env), audio, n)
    ensures var feedback := CastFeedback(senderSsrc, ConfigOf(c, audio).ssrc, ack, playoutMs, nacks);
            Asks(c, events + [Arrive(feedback)], SendFrame(frames, env), audio, n, i)
  {
    hide Run, InputsOf, CastFeedback, Nacks, Walk, MediaSsrc;
    var feedback := CastFeedback(senderSsrc, ConfigOf(c, audio).ssrc, ack, playoutMs, nacks);
    FeedbackReadsBack(senderSsrc, ConfigOf(c, audio).ssrc, ack, playoutMs, nacks);
    RunSnoc(c, events, Arrive(feedback));
    OneBlock(feedback);
    assert feedback[..Min(|feedback|, RECEIVE_BYTES)] == feedback;
    assert RoundBlocks([feedback], RECEIVE_BUDGET) == [feedback] + RoundBlocks([], RECEIVE_BUDGET - 1);
    assert feedback in RoundBlocks([feedback], RECEIVE_BUDGET);
  }

  /** One entry for the whole frame covers whatever is missing of it. */
  lemma WholeFrameCovers(ps: seq<bytes>, held: seq<bytes>, mask: byte, n: nat)
    ensures CoversMissing(ps, held, [Nack(n % TWO_8, WHOLE_FRAME, mask)], n)
  {
    var nacks := [Nack(n % TWO_8, WHOLE_FRAME, mask)];
    forall i | 0 <= i < |ps| && ps[i] !in held
      ensures exists k :: 0 <= k < |nacks| && nacks[k].frameId == n % TWO_8 && Covers(nacks[k], i)
    {
      assert Covers(nacks[0], i);
    }
  }

  // ------------------------------------------------------------------ the clock echo

  /** The last receiver reference time heard in a run: in the last round whose blocks held one. */
  function LastHeard(c: Config, events: seq<Event>): Reference {
    if events == [] then NoReference
    else
      var init, last := events[..|events| - 1], events[|events| - 1];
      if Serves(Run(c, init), last) then
        ReferenceAfter(LastHeard(c, init), RoundBlocks(Run(c, init).inbox, RECEIVE_BUDGET), last.env.nowUs)
      else LastHeard(c, init)
  }

  lemma {:induction false} ReferenceOverRun(c: Config, events: seq<Event>)
    ensures Run(c, events).reference == LastHeard(c, events)
  {
    hide Apply, Submitted, Service, Answers, RoundBlocks, ReferenceAfter;
    if events != [] {
      var init, last := events[..|events| - 1], events[|events| - 1];
      var s := Run(c, init);
      ReferenceOverRun(c, init);
      ApplyExtends(c, s, last);
      if Serves(s, last) {
        SubmittedExtends(c, s, last);
        ServiceAnswers(Submitted(c, s, last), last.env);
      }
    }
  }

  /** A report without an echo, or one that splits into the report and one DLRR block for this reference. */
  ghost predicate Echoes(datagram: Datagram, sr: bytes, reference: Reference, delay: uint32) {
    match reference
    case NoReference => datagram == Report(sr) && Walk(sr) == [sr]
    case Heard(receiver, lastRr, _) =>
      exists echo :: datagram == Report(sr + echo) && Walk(sr + echo) == [sr, echo] && IsXr(echo)
                     && Walk(echo[8..]) == [DlrrBlock(receiver, lastRr, delay)]
  }

  /**
   The playout clock loop, over every run: when an event serves and a report is due, the first datagram
   behind the event's media is the sender report with the video totals, echoing the last reference time
   heard in the whole run, whatever was sent, resent or received since.
   */
  lemma EchoOverRun(c: Config, events: seq<Event>, e: Event)
    ensures var s := Run(c, events);
            Serves(s, e) && e.env.nowUs - s.lastSrUs >= REPORT_INTERVAL_US ==>
              var t, log := Submitted(c, s, e), Run(c, events + [e]).log;
              var v := t.video;
              var sr := SenderReport(VIDEO_SSRC, e.env.ntpSeconds, e.env.ntpFraction, v.timestamp, v.packetCount,
                  v.octetCount);
              t.log < log && Echoes(log[|t.log|], sr, LastHeard(c, events), e.env.delay)
  {
    hide Run, Apply, Submitted, Service, SenderReport, AudioReport, Answers, RoundBlocks, ReferenceAfter, LastHeard,
        Echoes;
    var s := Run(c, events);
    RunSnoc(c, events, e);
    if Serves(s, e) && e.env.nowUs - s.lastSrUs >= REPORT_INTERVAL_US {
      var t := Submitted(c, s, e);
      SubmittedExtends(c, s, e);
      ServiceAnswers(t, e.env);
      ReferenceOverRun(c, events);
      ReportEchoes(t, e.env);
      assert SendReports(t, e.env).log[|t.log|] == Report(VideoReport(t, e.env));
    }
  }

  lemma ReportEchoes(s: Session, env: Env)
    ensures var v := s.video;
            var sr := SenderReport(VIDEO_SSRC, env.ntpSeconds, env.ntpFraction, v.timestamp, v.packetCount,
                v.octetCount);
            Echoes(Report(VideoReport(s, env)), sr, s.reference, env.delay)
  {
    hide SenderReport, XrDlrr, Walk, DlrrBlock;
    var v := s.video;
    var sr := SenderReport(VIDEO_SSRC, env.ntpSeconds, env.ntpFraction, v.timestamp, v.packetCount, v.octetCount);
    match s.reference
    case NoReference =>
      ReportsAreBlocks(VIDEO_SSRC, env.ntpSeconds, env.ntpFraction, v.timestamp, v.packetCount, v.octetCount, 0, 0, 0);
      OneBlock(sr);
      assert sr + [] == sr;
    case Heard(receiver, lastRr, _) =>
      CompoundReportSplits(VIDEO_SSRC, env.ntpSeconds, env.ntpFraction, v.timestamp, v.packetCount, v.octetCount,
                           receiver, lastRr, env.delay);
      var echo := XrDlrr(VIDEO_SSRC, receiver, lastRr, env.delay);
      assert Report(VideoReport(s, env)) == Report(sr + echo);
  }

  // ------------------------------------------------------------------ when reports are sent, and what is read

  /** The event sends media, as told from the events before it. */
  predicate Sends(before: seq<Event>, e: Event) {
    Stop !in before && (e.SendFrame? || (e.SendAudio? && Sounding(before)))
  }

  /** When the last report of a run was sent: with the first sending event 200 ms or more behind the one before. */
  function LastReportAt(events: seq<Event>): int {
    if events == [] then 0
    else
      var init, last := events[..|events| - 1], events[|events| - 1];
      if Sends(init, last) && last.env.nowUs - LastReportAt(init) >= 200000 then last.env.nowUs else LastReportAt(init)
  }

  lemma {:induction false} ReportTimes(c: Config, events: seq<Event>)
    ensures Run(c, events).lastSrUs == LastReportAt(events)
  {
    if events != [] {
      hide Run, Apply, Sounding, Submitted;
      var init, last := events[..|events| - 1], events[|events| - 1];
      assert events == init + [last];
      ReportTimes(c, init);
      SwitchesOverRun(c, init);
      RunSnoc(c, init, last);
      LastSrAfter(c, Run(c, init), last);
    }
  }

  lemma LastSrAfter(c: Config, s: Session, e: Event)
    ensures Apply(c, s, e).lastSrUs ==
            if Serves(s, e) && e.env.nowUs - s.lastSrUs >= 200000 then e.env.nowUs else s.lastSrUs
  {
    hide Service, SendVideoAll, SendSound, VideoReport, AudioReport, RoundBlocks, Handled, Drain;
    if Serves(s, e) {
      SubmittedExtends(c, s, e);
      var t := Submitted(c, s, e);
      ServiceTime(t, e.env);
    }
  }

  lemma ServiceTime(s: Session, env: Env)
    ensures Service(s, env).lastSrUs == if env.nowUs - s.lastSrUs >= 200000 then env.nowUs else s.lastSrUs
  {
    hide Drain, RoundBlocks, Answers, ReferenceAfter, VideoReport, AudioReport;
    DrainIsHandled(SendReports(s, env), RECEIVE_BUDGET, env.nowUs);
  }

  /**
   What an event that sends adds to the log, over every run: its media; then, if 200 ms have passed since the last
   report, the video report with the echo and, with sound, the sound report with the totals of sound; then the answers
   to what the round reads. Otherwise no report.
   */
  lemma ReportsOverRun(c: Config, events: seq<Event>, e: Event)
    ensures Serves(Run(c, events), e) <==> Sends(events, e)
    ensures Sends(events, e) ==>
              var s := Run(c, events);
              var t, log, blocks := Submitted(c, s, e), Run(c, events + [e]).log, RoundBlocks(s.inbox, 64);
              var due := e.env.nowUs - LastReportAt(events) >= 200000;
              var v, a := t.video, t.audio;
              var sr := SenderReport(100000, e.env.ntpSeconds, e.env.ntpFraction, v.timestamp, v.packetCount,
                  v.octetCount);
              var ar := SenderReport(100001, e.env.ntpSeconds, e.env.ntpFraction, a.timestamp, a.packetCount,
                  a.octetCount);
              exists first :: Echoes(first, sr, LastHeard(c, events), e.env.delay)
                && log == t.log + (if due then [first] + (if Sounding(events) then [Report(ar)] else []) else [])
                        + Answers(v.cache.sent, a.cache.sent, blocks)
  {
    hide Run, Apply, Submitted, Service, SenderReport, Answers, RoundBlocks, ReferenceAfter, LastHeard, Echoes,
         Sounding, VideoReport, LastReportAt;
    var s := Run(c, events);
    SwitchesOverRun(c, events);
    RunSnoc(c, events, e);
    if Sends(events, e) {
      var t := Submitted(c, s, e);
      SubmittedExtends(c, s, e);
      SubmittedSwitches(c, s, e);
      ServiceAnswers(t, e.env);
      ReferenceOverRun(c, events);
      ReportTimes(c, events);
      ReportEchoes(t, e.env);
      var first := Report(VideoReport(t, e.env));
      assert t.log + [] == t.log;
    }
  }

  lemma SubmittedSwitches(c: Config, s: Session, e: Event)
    requires Serves(s, e)
    ensures Submitted(c, s, e).audioStarted == s.audioStarted
  {
    hide SendVideoAll, Advance, StepPackets;
    if e.SendFrame? {
      VideoAllKeepsRest(c, s, e.frames);
    }
  }

  /** The blocks of the datagrams, each cut at 2048 octets. */
  function BlocksOf(datagrams: seq<bytes>): seq<bytes> {
    if datagrams == [] then []
    else Walk(datagrams[0][..Min(|datagrams[0]|, 2048)]) + BlocksOf(datagrams[1..])
  }

  /** What a round reads: the first 64 datagrams, or fewer if an empty one comes before, and no more. */
  lemma {:induction false} RoundReads(inbox: seq<bytes>, budget: nat, taken: seq<bytes>, rest: seq<bytes>)
    requires inbox == taken + rest && [] !in taken
    requires |taken| <= budget && (|taken| < budget ==> rest == [] || rest[0] == [])
    ensures RoundBlocks(inbox, budget) == BlocksOf(taken)
    decreases budget
  {
    hide Walk;
    if taken == [] {
      assert inbox == rest;
    } else {
      assert inbox[0] == taken[0] && taken[0] in taken && inbox[1..] == taken[1..] + rest;
      assert [] !in taken[1..];
      RoundReads(inbox[1..], budget - 1, taken[1..], rest);
    }
  }

  /** What it leaves in the mailbox: everything behind those, without the empty datagram that ended it. */
  lemma {:induction false} RoundLeaves(s: Session, budget: nat, nowUs: int, taken: seq<bytes>, rest: seq<bytes>)
    requires s.inbox == taken + rest && [] !in taken
    requires |taken| <= budget && (|taken| < budget ==> rest == [] || rest[0] == [])
    ensures Drain(s, budget, nowUs).inbox == if |taken| < budget && rest != [] then rest[1..] else rest
    decreases budget
  {
    hide HandleBlocks, Walk;
    if taken == [] {
      assert s.inbox == rest;
    } else {
      var t := s.(inbox := s.inbox[1..]);
      var dg := s.inbox[0][..Min(|s.inbox[0]|, RECEIVE_BYTES)];
      assert s.inbox[0] == taken[0] && taken[0] in taken && t.inbox == taken[1..] + rest;
      BlocksAreHandled(t, Walk(dg), nowUs);
      assert [] !in taken[1..];
      RoundLeaves(HandleDatagram(t, dg, nowUs), budget - 1, nowUs, taken[1..], rest);
    }
  }

  /** A service round reads at most 64 datagrams. */
  lemma ServiceReads(s: Session, env: Env, taken: seq<bytes>, rest: seq<bytes>)
    requires s.inbox == taken + rest && [] !in taken
    requires |taken| == 64 || (|taken| < 64 && (rest == [] || rest[0] == []))
    ensures var t := Service(s, env);
            && t.inbox == (if |taken| < 64 && rest != [] then rest[1..] else rest)
            && t.log == SendReports(s, env).log + Answers(s.video.cache.sent, s.audio.cache.sent, BlocksOf(taken))
  {
    hide Drain, RoundBlocks, BlocksOf, VideoReport, AudioReport, Answers;
    ServiceAnswers(s, env);
    RoundReads(s.inbox, RECEIVE_BUDGET, taken, rest);
    RoundLeaves(SendReports(s, env), RECEIVE_BUDGET, env.nowUs, taken, rest);
  }

  /** A receiver's reference time packet, handled at `nowUs`, is kept with the middle 32 bits of its time. */
  lemma ReferenceTimeIsHeard(s: Session, ssrc: uint32, msw: uint32, lsw: uint32, nowUs: int)
    ensures var t := HandleDatagram(s, ReferenceTimePacket(ssrc, msw, lsw), nowUs);
            && t.reference == Heard(ssrc, msw % 0x1_0000 * 0x1_0000 + lsw / 0x1_0000, nowUs)
            && t.log == s.log && t.video == s.video && t.audio == s.audio
  {
    hide ReferenceTimePacket, Walk, LastRr, LastReference;
    var p := ReferenceTimePacket(ssrc, msw, lsw);
    ReferenceTimeIsRead(ssrc, msw, lsw);
    OneBlock(p);
    assert HandleBlocks(HandleBlock(s, p, nowUs), [], nowUs) == HandleBlock(s, p, nowUs);
    assert HandleBlocks(s, [p], nowUs) == HandleBlock(s, p, nowUs);
  }
}
