/**
 The RTCP side of the mirroring session (optional/cast/MirrorSession.cpp, optional/cast/CastTransport.cpp):
 walking a compound datagram block by block (section 6.1 of RFC 3550), the NACK entries of a "CAST"
 application feedback block (section 6.4 of RFC 4585), the receiver reference time of an XR block
 (section 4.4 of RFC 3611), and the reports sent back (section 6.4.1 of RFC 3550, section 4.5 of RFC 3611).
 */
module Rtcp {
  import opened Bytes
  import opened Arith
  import opened Options

  const PT_SENDER_REPORT: byte := 200
  const PT_PSFB: byte := 206
  const PT_XR: byte := 207
  const BT_REFERENCE_TIME: byte := 4
  const BT_DLRR: byte := 5
  const CAST: bytes := [0x43, 0x41, 0x53, 0x54]

  // ------------------------------------------------------------------ walking

  /** The length a block announces: its 16-bit word count plus one, in 4-byte words. */
  function BlockLen(p: bytes, at: nat): nat
    requires at + 4 <= |p|
  {
    (GetBE16(p, at + 2) + 1) * 4
  }

  predicate WellFormed(block: bytes) {
    |block| >= 4 && |block| == BlockLen(block, 0)
  }

  /** No complete block starts here. */
  predicate NoBlock(rest: bytes) {
    |rest| < 4 || BlockLen(rest, 0) > |rest|
  }

  /** The blocks visited in `p`, in order. RTCP packets and XR sub-blocks share this framing. */
  function Walk(p: bytes): seq<bytes> {
    if NoBlock(p) then [] else [p[..BlockLen(p, 0)]] + Walk(p[BlockLen(p, 0)..])
  }

  lemma WalkStep(block: bytes, rest: bytes)
    requires WellFormed(block)
    ensures Walk(block + rest) == [block] + Walk(rest)
  {
    var p := block + rest;
    assert BlockLen(p, 0) == |block|;
    assert p[..|block|] == block && p[|block|..] == rest;
  }

  /** Any concatenation of well-formed blocks is visited exactly, whatever incomplete tail follows. */
  lemma {:induction false} WalkVisitsExactly(blocks: seq<bytes>, rest: bytes)
    requires forall b :: b in blocks ==> WellFormed(b)
    requires NoBlock(rest)
    ensures Walk(Join(blocks) + rest) == blocks
  {
    if blocks == [] {
      assert Join(blocks) + rest == rest;
    } else {
      WalkVisitsExactly(blocks[1..], rest);
      assert Join(blocks) + rest == blocks[0] + (Join(blocks[1..]) + rest);
      WalkStep(blocks[0], Join(blocks[1..]) + rest);
    }
  }

  /** On every byte string: the visited blocks are well-formed, spell a prefix, and leave no block over. */
  lemma {:induction false} WalkCovers(p: bytes)
    ensures forall b :: b in Walk(p) ==> WellFormed(b)
    ensures Join(Walk(p)) <= p
    ensures NoBlock(p[|Join(Walk(p))|..])
  {
    if NoBlock(p) {
      assert p[0..] == p;
    } else {
      var n := BlockLen(p, 0);
      WalkCovers(p[n..]);
      var j := Join(Walk(p[n..]));
      assert Join(Walk(p)) == p[..n] + j;
      assert p[n..][|j|..] == p[n + |j|..];
      assert p == p[..n] + p[n..];
    }
  }

  // ------------------------------------------------------------------ CAST feedback

  datatype Nack = Nack(frameId: byte, packetId: uint16, mask: byte)

  predicate IsCastFeedback(block: bytes) {
    |block| >= 20 && block[1] == PT_PSFB && block[12..16] == CAST
  }

  function MediaSsrc(block: bytes): uint32
    requires |block| >= 20
  {
    GetBE32(block, 8)
  }

  /** The entries that fit, capped by the announced loss count. */
  function NackCount(block: bytes): nat
    requires |block| >= 20
  {
    Min(block[17], (|block| - 20) / 4)
  }

  function NackAt(block: bytes, k: nat): Nack
    requires |block| >= 20 && k < NackCount(block)
  {
    Nack(block[20 + 4 * k], GetBE16(block, 20 + 4 * k + 1), block[20 + 4 * k + 3])
  }

  function Nacks(block: bytes): seq<Nack>
    requires |block| >= 20
  {
    seq(NackCount(block), k requires 0 <= k < NackCount(block) => NackAt(block, k))
  }

  function NackBytes(n: Nack): (s: bytes)
    ensures |s| == 4
  {
    [n.frameId] + BE16(n.packetId) + [n.mask]
  }

  function NackList(nacks: seq<Nack>): (s: bytes)
    ensures |s| == 4 * |nacks|
  {
    if nacks == [] then [] else NackBytes(nacks[0]) + NackList(nacks[1..])
  }

  function FeedbackHeader(senderSsrc: uint32, mediaSsrc: uint32, ack: byte, playoutMs: uint16, count: byte): (s: bytes)
    ensures |s| == 20
  {
    [0x8F, PT_PSFB] + BE16(4 + count) + BE32(senderSsrc) + BE32(mediaSsrc) + CAST + [ack, count] + BE16(playoutMs)
  }

  /** A receiver's feedback packet. */
  function CastFeedback(senderSsrc: uint32, mediaSsrc: uint32, ack: byte, playoutMs: uint16,
      nacks: seq<Nack>): (s: bytes)
    requires |nacks| <= 255
    ensures |s| == 20 + 4 * |nacks|
  {
    FeedbackHeader(senderSsrc, mediaSsrc, ack, playoutMs, |nacks|) + NackList(nacks)
  }

  lemma {:induction false} NackListAt(nacks: seq<Nack>, k: nat)
    requires k < |nacks|
    ensures NackList(nacks)[4 * k..4 * k + 4] == NackBytes(nacks[k])
  {
    hide NackBytes;
    if k > 0 {
      NackListAt(nacks[1..], k - 1);
      assert NackList(nacks)[4 * k..4 * k + 4] == NackList(nacks[1..])[4 * (k - 1)..4 * (k - 1) + 4];
    }
  }

  /** Every feedback packet is one block, recognised as such, and its entries are read back exactly. */
  lemma FeedbackReadsBack(senderSsrc: uint32, mediaSsrc: uint32, ack: byte, playoutMs: uint16, nacks: seq<Nack>)
    requires |nacks| <= 255
    ensures var b := CastFeedback(senderSsrc, mediaSsrc, ack, playoutMs, nacks);
            && WellFormed(b) && IsCastFeedback(b) && MediaSsrc(b) == mediaSsrc
            && b[16] == ack && b[17] == |nacks| && Nacks(b) == nacks
  {
    var b := CastFeedback(senderSsrc, mediaSsrc, ack, playoutMs, nacks);
    hide FeedbackHeader, NackList, GetBE16, GetBE32, BE16, BE32;
    HeaderLayout(senderSsrc, mediaSsrc, ack, playoutMs, |nacks|);
    var h := FeedbackHeader(senderSsrc, mediaSsrc, ack, playoutMs, |nacks|);
    assert b[2..4] == h[2..4] && b[8..12] == h[8..12] && b[12..16] == h[12..16];
    assert b[20..] == NackList(nacks);
    ReadBE16(4 + |nacks|, b, 2);
    ReadBE32(mediaSsrc, b, 8);
    forall k: nat | k < |nacks|
      ensures NackAt(b, k) == nacks[k]
    {
      hide NackBytes, NackAt;
      NackListAt(nacks, k);
      assert b[20 + 4 * k..24 + 4 * k] == b[20..][4 * k..4 * k + 4];
      NackReadsBack(b, k, nacks[k]);
    }
  }

  lemma NackReadsBack(b: bytes, k: nat, n: Nack)
    requires |b| >= 20 && k < NackCount(b) && b[20 + 4 * k..24 + 4 * k] == NackBytes(n)
    ensures NackAt(b, k) == n
  {
    var e := b[20 + 4 * k..24 + 4 * k];
    assert forall j :: 0 <= j < 4 ==> b[20 + 4 * k + j] == e[j];
    assert e[1] == n.packetId / 0x100 && e[2] == n.packetId % 0x100;
  }

  lemma HeaderLayout(senderSsrc: uint32, mediaSsrc: uint32, ack: byte, playoutMs: uint16, count: byte)
    ensures var h := FeedbackHeader(senderSsrc, mediaSsrc, ack, playoutMs, count);
            && h[1] == PT_PSFB && h[2..4] == BE16(4 + count) && h[8..12] == BE32(mediaSsrc)
            && h[12..16] == CAST && h[16] == ack && h[17] == count
  {
    hide BE16, BE32;
  }

  // ------------------------------------------------------------------ receiver reference time

  predicate IsXr(block: bytes) {
    |block| >= 8 && block[1] == PT_XR
  }

  predicate IsReferenceTime(sub: bytes) {
    |sub| >= 12 && sub[0] == BT_REFERENCE_TIME
  }

  /** The last complete reference-time sub-block. */
  function LastReference(subs: seq<bytes>): (r: Option<bytes>)
    ensures r.Some? ==> r.value in subs && IsReferenceTime(r.value)
    ensures r.None? ==> forall sub :: sub in subs ==> !IsReferenceTime(sub)
  {
    if subs == [] then None
    else if IsReferenceTime(subs[|subs| - 1]) then Some(subs[|subs| - 1])
    else LastReference(subs[..|subs| - 1])
  }

  function LastRr(sub: bytes): uint32
    requires |sub| >= 12
  {
    GetBE32(sub, 4) % TWO_16 * TWO_16 + GetBE32(sub, 8) / TWO_16
  }

  /** It is the middle 32 bits of the 64-bit NTP timestamp, as section 4.5 of RFC 3611 wants echoed. */
  lemma LastRrIsMiddle32(sub: bytes)
    requires |sub| >= 12
    ensures LastRr(sub) == (GetBE32(sub, 4) * TWO_32 + GetBE32(sub, 8)) / TWO_16 % TWO_32
  {
    hide GetBE32;
    var msw, lsw := GetBE32(sub, 4), GetBE32(sub, 8);
    Quotient(msw * TWO_32 + lsw, TWO_16, msw * TWO_16 + lsw / TWO_16, lsw % TWO_16);
    Quotient(msw * TWO_16 + lsw / TWO_16, TWO_32, msw / TWO_16, msw % TWO_16 * TWO_16 + lsw / TWO_16);
  }

  // ------------------------------------------------------------------ reports

  function SenderReport(ssrc: uint32, ntpSeconds: uint32, ntpFraction: uint32, rtpTimestamp: uint32,
                        packetCount: uint32, octetCount: uint32): (s: bytes)
    ensures |s| == 28
  {
    [0x80, PT_SENDER_REPORT] + BE16(6) + BE32(ssrc) + BE32(ntpSeconds) + BE32(ntpFraction)
    + BE32(rtpTimestamp) + BE32(packetCount) + BE32(octetCount)
  }

  function DlrrBlock(receiverSsrc: uint32, lastRr: uint32, delay: uint32): (s: bytes)
    ensures |s| == 16
  {
    [BT_DLRR, 0] + BE16(3) + BE32(receiverSsrc) + BE32(lastRr) + BE32(delay)
  }

  function XrDlrr(senderSsrc: uint32, receiverSsrc: uint32, lastRr: uint32, delay: uint32): (s: bytes)
    ensures |s| == 24
  {
    [0x80, PT_XR] + BE16(5) + BE32(senderSsrc) + DlrrBlock(receiverSsrc, lastRr, delay)
  }

  lemma ReportsAreBlocks(ssrc: uint32, sec: uint32, frac: uint32, ts: uint32, pc: uint32, oc: uint32, rx: uint32,
      lrr: uint32, delay: uint32)
    ensures WellFormed(SenderReport(ssrc, sec, frac, ts, pc, oc))
    ensures WellFormed(XrDlrr(ssrc, rx, lrr, delay)) && WellFormed(DlrrBlock(rx, lrr, delay))
  {
    hide BE32;
  }

  /** The compound report splits back into its two packets, and the XR packet into its one DLRR block. */
  lemma CompoundReportSplits(ssrc: uint32, sec: uint32, frac: uint32, ts: uint32, pc: uint32, oc: uint32, rx: uint32,
      lrr: uint32, delay: uint32)
    ensures var sr, xr := SenderReport(ssrc, sec, frac, ts, pc, oc), XrDlrr(ssrc, rx, lrr, delay);
            && Walk(sr + xr) == [sr, xr]
            && sr[1] == PT_SENDER_REPORT && IsXr(xr)
            && Walk(xr[8..]) == [DlrrBlock(rx, lrr, delay)]
  {
    var sr, xr, d := SenderReport(ssrc, sec, frac, ts, pc, oc), XrDlrr(ssrc, rx, lrr, delay), DlrrBlock(rx, lrr, delay);
    ReportsAreBlocks(ssrc, sec, frac, ts, pc, oc, rx, lrr, delay);
    assert xr[8..] == d;
    assert Walk([]) == [];
    WalkStep(sr, xr);
    WalkStep(xr, []);
    WalkStep(d, []);
    assert xr + [] == xr && d + [] == d;
  }

  /** What a receiver reads back from the reports. */
  lemma ReportsReadBack(ssrc: uint32, sec: uint32, frac: uint32, ts: uint32, pc: uint32, oc: uint32, rx: uint32,
      lrr: uint32, delay: uint32)
    ensures var sr, d := SenderReport(ssrc, sec, frac, ts, pc, oc), DlrrBlock(rx, lrr, delay);
            && GetBE32(sr, 4) == ssrc && GetBE32(sr, 8) == sec && GetBE32(sr, 12) == frac
            && GetBE32(sr, 16) == ts && GetBE32(sr, 20) == pc && GetBE32(sr, 24) == oc
            && d[0] == BT_DLRR && GetBE32(d, 4) == rx && GetBE32(d, 8) == lrr && GetBE32(d, 12) == delay
  {
    hide BE16, BE32, GetBE32;
    var sr, d := SenderReport(ssrc, sec, frac, ts, pc, oc), DlrrBlock(rx, lrr, delay);
    ReadBE32(ssrc, sr, 4);
    ReadBE32(sec, sr, 8);
    ReadBE32(frac, sr, 12);
    ReadBE32(ts, sr, 16);
    ReadBE32(pc, sr, 20);
    ReadBE32(oc, sr, 24);
    ReadBE32(rx, d, 4);
    ReadBE32(lrr, d, 8);
    ReadBE32(delay, d, 12);
  }

  /** The reports octet by octet, up to their fields, and the sender of the echo. */
  lemma ReportOctets(ssrc: uint32, sec: uint32, frac: uint32, ts: uint32, pc: uint32, oc: uint32, rx: uint32,
      lrr: uint32, delay: uint32)
    ensures var sr, xr := SenderReport(ssrc, sec, frac, ts, pc, oc), XrDlrr(ssrc, rx, lrr, delay);
            && sr[..4] == [0x80, 200, 0, 6] && xr[..4] == [0x80, 207, 0, 5] && xr[8..12] == [5, 0, 0, 3]
            && GetBE32(xr, 4) == ssrc && GetBE32(xr, 12) == rx && GetBE32(xr, 16) == lrr && GetBE32(xr, 20) == delay
            && |sr| == 28 && |xr| == 24
  {
    hide BE32, GetBE32;
    var xr := XrDlrr(ssrc, rx, lrr, delay);
    ReadBE32(ssrc, xr, 4);
    ReadBE32(rx, xr, 12);
    ReadBE32(lrr, xr, 16);
    ReadBE32(delay, xr, 20);
  }

  // ------------------------------------------------------------------ feedback on its octets

  /** A feedback block is told by its type 206 and the letters CAST; its entries are four octets each. */
  lemma FeedbackOctets(block: bytes)
    ensures IsCastFeedback(block) <==>
            && |block| >= 20 && block[1] == 206
            && block[12] == 0x43 && block[13] == 0x41 && block[14] == 0x53 && block[15] == 0x54
    ensures |block| >= 20 ==>
              && MediaSsrc(block) == 0x100_0000 * block[8] as int + 0x1_0000 * block[9] as int
                                   + 0x100 * block[10] as int + block[11] as int
              && |Nacks(block)| ==
                 (if 20 + 4 * block[17] as int <= |block| then block[17] as int else (|block| - 20) / 4)
              && forall k :: 0 <= k < |Nacks(block)| ==>
                   Nacks(block)[k] == Nack(block[20 + 4 * k],
                                           0x100 * block[21 + 4 * k] as int + block[22 + 4 * k] as int,
                                           block[23 + 4 * k])
  {
    hide GetBE16, GetBE32;
    if |block| >= 20 {
      ReadSpells(block, 8);
      assert block[12..16] == [block[12], block[13], block[14], block[15]];
      forall k | 0 <= k < NackCount(block)
        ensures GetBE16(block, 20 + 4 * k + 1) == 0x100 * block[21 + 4 * k] as int + block[22 + 4 * k] as int
      {
        ReadSpells(block, 20 + 4 * k + 1);
      }
    }
  }

  /** A block is as long as its length words say, plus one; an XR block is told by its type 207. */
  lemma BlockOctets(block: bytes)
    ensures WellFormed(block) <==> |block| >= 4 && |block| == 4 * (0x100 * block[2] as int + block[3] as int + 1)
    ensures IsXr(block) <==> |block| >= 8 && block[1] == 207
  {
    hide GetBE16;
    ReadSpells(block, 2);
  }

  /** The last complete reference time wins, others before and foreign sub-blocks around it notwithstanding. */
  lemma LastReferenceWins(before: seq<bytes>, sub: bytes, behind: seq<bytes>)
    requires |sub| >= 12 && sub[0] == 4
    requires forall other :: other in behind ==> |other| < 12 || other[0] != 4
    ensures LastReference(before + [sub] + behind) == Some(sub)
    decreases |behind|
  {
    var all := before + [sub] + behind;
    if behind == [] {
      assert all[|all| - 1] == sub;
    } else {
      var init := behind[..|behind| - 1];
      assert behind[|behind| - 1] in behind;
      assert all[..|all| - 1] == before + [sub] + init;
      LastReferenceWins(before, sub, init);
    }
  }

  /** A receiver's reference time packet, as section 4.4 of RFC 3611 lays it out. */
  function ReferenceTimePacket(ssrc: uint32, msw: uint32, lsw: uint32): (s: bytes)
    ensures |s| == 20
  {
    [0x80, 207, 0, 4] + BE32(ssrc) + ([4, 0, 0, 2] + BE32(msw) + BE32(lsw))
  }

  /** It is one block, recognised, and its one sub-block is the reference time. */
  lemma ReferenceTimeIsRead(ssrc: uint32, msw: uint32, lsw: uint32)
    ensures var p := ReferenceTimePacket(ssrc, msw, lsw);
            var sub := [4, 0, 0, 2] + BE32(msw) + BE32(lsw);
            && WellFormed(p) && IsXr(p) && !IsCastFeedback(p) && GetBE32(p, 4) == ssrc && p[8..] == sub
            && Walk(sub) == [sub] && LastReference(Walk(p[8..])) == Some(sub)
            && LastRr(sub) == msw % 0x1_0000 * 0x1_0000 + lsw / 0x1_0000
  {
    hide BE32, GetBE32;
    var p := ReferenceTimePacket(ssrc, msw, lsw);
    var sub: bytes := [4, 0, 0, 2] + BE32(msw) + BE32(lsw);
    ReadBE32(ssrc, p, 4);
    ReadBE32(msw, sub, 4);
    ReadBE32(lsw, sub, 8);
    ReadSpells(p, 2);
    ReadSpells(sub, 2);
    assert p[8..] == sub && sub + [] == sub && Walk([]) == [];
    WalkStep(sub, []);
    LastReferenceWins([], sub, []);
    assert [] + [sub] + [] == [sub];
  }
}
