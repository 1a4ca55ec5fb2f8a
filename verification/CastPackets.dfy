/**
 The Cast RTP packet: its header layout, the splitter that turns one encrypted frame into packets,
 and the reassembler that turns packets back into the frame (optional/cast/CastTransport.cpp).
 */
module CastPackets {
  import opened Bytes
  import opened Arith
  import opened Options

  datatype RtpHeader = RtpHeader(
    payloadType: byte,
    sequenceNumber: uint16,
    rtpTimestamp: uint32,
    ssrc: uint32,
    keyFrame: bool,
    frameId: byte,
    packetId: uint16,
    maxPacketId: uint16,
    hasReference: bool,
    referenceFrameId: byte)

  datatype Packet = Packet(header: RtpHeader, payload: bytes)

  function CastHeaderSize(hasReference: bool): nat {
    if hasReference then 7 else 6
  }

  // ------------------------------------------------------------------ wire format

  function FlagByte(keyFrame: bool, hasReference: bool): byte {
    (if keyFrame then 0x80 else 0) + (if hasReference then 0x40 else 0)
  }

  function HeaderBytes(h: RtpHeader): (s: bytes)
    ensures |s| == 12 + CastHeaderSize(h.hasReference)
  {
    [0x80] + [h.payloadType % 0x80] + BE16(h.sequenceNumber) + BE32(h.rtpTimestamp) + BE32(h.ssrc)
    + [FlagByte(h.keyFrame, h.hasReference)] + [h.frameId] + BE16(h.packetId) + BE16(h.maxPacketId)
    + (if h.hasReference then [h.referenceFrameId] else [])
  }

  method BuildRtpPacket(h: RtpHeader, payload: bytes) returns (p: bytes)
    ensures p == HeaderBytes(h) + payload
  {
    hide BE16, BE32;
    p := [0x80];
    p := p + [h.payloadType % 0x80];
    p := p + BE16(h.sequenceNumber);
    p := p + BE32(h.rtpTimestamp);
    p := p + BE32(h.ssrc);
    var b12 := 0;
    if h.keyFrame { b12 := b12 + 0x80; }
    if h.hasReference { b12 := b12 + 0x40; }
    p := p + [b12];
    p := p + [h.frameId];
    p := p + BE16(h.packetId);
    p := p + BE16(h.maxPacketId);
    if h.hasReference {
      p := p + [h.referenceFrameId];
    }
    assert p == HeaderBytes(h);
    p := p + payload;
  }

  /** The reference id of a packet without one keeps the struct's default, 0. */
  function ParseRtpPacket(p: bytes): Option<Packet> {
    if |p| < 18 || p[0] / 0x40 != 2 then None
    else
      var hasReference := p[12] / 0x40 % 2 == 1;
      if hasReference && |p| < 19 then None
      else
        var h := RtpHeader(
          p[1] % 0x80, GetBE16(p, 2), GetBE32(p, 4), GetBE32(p, 8), p[12] / 0x80 == 1, p[13],
          GetBE16(p, 14), GetBE16(p, 16), hasReference, if hasReference then p[18] else 0);
        Some(Packet(h, p[12 + CastHeaderSize(hasReference)..]))
  }

  /** What a header becomes on the wire: a 7-bit payload type, no reference id unless flagged. */
  function OnWire(h: RtpHeader): RtpHeader {
    h.(payloadType := h.payloadType % 0x80, referenceFrameId := if h.hasReference then h.referenceFrameId else 0)
  }

  lemma Middle(a: bytes, b: bytes, c: bytes, s: bytes)
    requires s == a + b + c
    ensures s[|a|..|a| + |b|] == b
  {
  }

  lemma FieldsOfHeader(h: RtpHeader, p: bytes)
    requires HeaderBytes(h) <= p
    ensures p[0] == 0x80 && p[1] == h.payloadType % 0x80 && p[2..4] == BE16(h.sequenceNumber)
    ensures p[4..8] == BE32(h.rtpTimestamp) && p[8..12] == BE32(h.ssrc)
    ensures p[12] == FlagByte(h.keyFrame, h.hasReference) && p[13] == h.frameId
    ensures p[14..16] == BE16(h.packetId) && p[16..18] == BE16(h.maxPacketId)
    ensures h.hasReference ==> p[18] == h.referenceFrameId
  {
    hide BE16, BE32;
    var s := HeaderBytes(h);
    var rtp := [0x80] + [h.payloadType % 0x80] + BE16(h.sequenceNumber) + BE32(h.rtpTimestamp) + BE32(h.ssrc);
    var flags := [FlagByte(h.keyFrame, h.hasReference)] + [h.frameId];
    assert s == rtp + flags + BE16(h.packetId) + BE16(h.maxPacketId) + s[18..];
    assert s[2..4] == BE16(h.sequenceNumber);
    assert s[4..8] == BE32(h.rtpTimestamp);
    assert s[8..12] == BE32(h.ssrc);
    Middle(rtp + flags, BE16(h.packetId), BE16(h.maxPacketId) + s[18..], s);
    Middle(rtp + flags + BE16(h.packetId), BE16(h.maxPacketId), s[18..], s);
    assert p[2..4] == s[2..4] && p[4..8] == s[4..8] && p[8..12] == s[8..12];
    assert p[14..16] == s[14..16] && p[16..18] == s[16..18];
  }

  /** The header octet by octet: version 2, payload type, sequence number, timestamp, SSRC, then the Cast fields. */
  lemma HeaderOctets(h: RtpHeader)
    ensures HeaderBytes(h) ==
            [0x80, h.payloadType % 0x80, h.sequenceNumber / 0x100, h.sequenceNumber % 0x100]
            + [h.rtpTimestamp / 0x100_0000, h.rtpTimestamp / 0x1_0000 % 0x100]
            + [h.rtpTimestamp / 0x100 % 0x100, h.rtpTimestamp % 0x100]
            + [h.ssrc / 0x100_0000, h.ssrc / 0x1_0000 % 0x100, h.ssrc / 0x100 % 0x100, h.ssrc % 0x100]
            + [if h.keyFrame then if h.hasReference then 0xc0 else 0x80 else if h.hasReference then 0x40 else 0x00]
            + [h.frameId, h.packetId / 0x100, h.packetId % 0x100, h.maxPacketId / 0x100, h.maxPacketId % 0x100]
            + (if h.hasReference then [h.referenceFrameId] else [])
  {
    hide BE16, BE32;
    WireOctets(h.sequenceNumber, h.rtpTimestamp);
    WireOctets(h.packetId, h.ssrc);
    WireOctets(h.maxPacketId, h.ssrc);
  }

  /** A packet is accepted with version 2 and all of its header there; its payload is what follows the header. */
  lemma AcceptedPackets(p: bytes)
    ensures var m := if |p| > 12 && p[12] / 0x40 % 2 == 1 then 19 else 18;
            && (ParseRtpPacket(p).Some? <==> |p| >= m && 0x80 <= p[0] < 0xc0)
            && (ParseRtpPacket(p).Some? ==> ParseRtpPacket(p).value.payload == p[m..])
  {
    hide GetBE16, GetBE32;
  }

  /** Parsing inverts building: every field and the whole payload come back. */
  lemma ParseInvertsBuild(h: RtpHeader, payload: bytes)
    ensures ParseRtpPacket(HeaderBytes(h) + payload) == Some(Packet(OnWire(h), payload))
  {
    hide BE16, BE32, GetBE16, GetBE32, HeaderBytes;
    var p := HeaderBytes(h) + payload;
    FieldsOfHeader(h, p);
    ReadBE16(h.sequenceNumber, p, 2);
    ReadBE32(h.rtpTimestamp, p, 4);
    ReadBE32(h.ssrc, p, 8);
    ReadBE16(h.packetId, p, 14);
    ReadBE16(h.maxPacketId, p, 16);
    assert p[|HeaderBytes(h)|..] == payload;
  }

  /** Re-serialising an accepted packet changes nothing but the bits the parser does not keep. */
  lemma Reserialised(p: bytes)
    requires ParseRtpPacket(p).Some?
    ensures var q := ParseRtpPacket(p).value;
            HeaderBytes(q.header) + q.payload == p[0 := 0x80][1 := p[1] % 0x80][12 := p[12] / 0x40 * 0x40]
  {
    hide BE16, BE32, GetBE16, GetBE32, HeaderBytes;
    var q := ParseRtpPacket(p).value;
    var n := 12 + CastHeaderSize(q.header.hasReference);
    FieldsOfHeader(q.header, HeaderBytes(q.header) + q.payload);
    WriteBE16(p, 2);
    WriteBE32(p, 4);
    WriteBE32(p, 8);
    WriteBE16(p, 14);
    WriteBE16(p, 16);
    ButForBits(HeaderBytes(q.header) + q.payload, p, n);
  }

  lemma ButForBits(t: bytes, p: bytes, n: nat)
    requires 18 <= n <= 19 && n <= |t| == |p| && t[n..] == p[n..]
    requires t[0] == 0x80 && t[1] == p[1] % 0x80 && t[2..4] == p[2..4] && t[4..8] == p[4..8] && t[8..12] == p[8..12]
    requires t[12] == p[12] / 0x40 * 0x40 && t[13] == p[13] && t[14..16] == p[14..16] && t[16..18] == p[16..18]
    requires n == 19 ==> t[18] == p[18]
    ensures t == p[0 := 0x80][1 := p[1] % 0x80][12 := p[12] / 0x40 * 0x40]
  {
    SameSlice(t, p, 2, 4);
    SameSlice(t, p, 4, 8);
    SameSlice(t, p, 8, 12);
    SameSlice(t, p, 14, 16);
    SameSlice(t, p, 16, 18);
    assert forall k :: n <= k < |p| ==> t[k] == t[n..][k - n] && p[k] == p[n..][k - n];
  }

  lemma SameSlice(a: bytes, b: bytes, lo: nat, hi: nat)
    requires lo <= hi <= |a| && hi <= |b| && a[lo..hi] == b[lo..hi]
    ensures forall k :: lo <= k < hi ==> a[k] == b[k]
  {
    forall k | lo <= k < hi ensures a[k] == b[k] {
      assert a[k] == a[lo..hi][k - lo] && b[k] == b[lo..hi][k - lo];
    }
  }

  /**
   Building inverts parsing exactly on the packets without padding, extension, CSRC count, marker
   or extension-count bits; on every other accepted packet those bits are lost.
   */
  lemma BuildInvertsParse(p: bytes)
    requires ParseRtpPacket(p).Some?
    ensures var q := ParseRtpPacket(p).value;
            HeaderBytes(q.header) + q.payload == p <==> p[0] == 0x80 && p[1] < 0x80 && p[12] % 0x40 == 0
  {
    Reserialised(p);
    var u := p[0 := 0x80][1 := p[1] % 0x80][12 := p[12] / 0x40 * 0x40];
    assert u[0] == 0x80 && u[1] == p[1] % 0x80 && u[12] == p[12] / 0x40 * 0x40;
  }

  // ------------------------------------------------------------------ splitting

  /** What all packets of one frame share. */
  datatype FrameMeta = FrameMeta(
    ssrc: uint32,
    payloadType: byte,
    seqStart: uint16,
    frameId: byte,
    keyFrame: bool,
    rtpTimestamp: uint32,
    hasReference: bool,
    referenceFrameId: byte)

  function MaxPayload(meta: FrameMeta, maxPacketBytes: nat): int {
    maxPacketBytes - (12 + CastHeaderSize(meta.hasReference))
  }

  function PacketCount(total: nat, m: nat): nat
    requires m > 0
  {
    if total == 0 then 1 else (total + m - 1) / m
  }

  function Slice(frame: bytes, m: nat, i: nat): (s: bytes)
    ensures |s| <= m
  {
    frame[Min(i * m, |frame|)..Min(i * m + m, |frame|)]
  }

  /** Packet and sequence numbers truncate to 16 bits. */
  function HeaderAt(meta: FrameMeta, count: nat, i: nat): RtpHeader
    requires count > 0
  {
    RtpHeader(meta.payloadType, (meta.seqStart + i) % TWO_16, meta.rtpTimestamp, meta.ssrc, meta.keyFrame,
              meta.frameId, i % TWO_16, (count - 1) % TWO_16, meta.hasReference, meta.referenceFrameId)
  }

  function PacketAt(meta: FrameMeta, frame: bytes, m: nat, i: nat): bytes
    requires m > 0
    requires PacketCount(|frame|, m) > 0
  {
    HeaderBytes(HeaderAt(meta, PacketCount(|frame|, m), i)) + Slice(frame, m, i)
  }

  /** The packets of one frame. */
  function Packets(meta: FrameMeta, frame: bytes, maxPacketBytes: nat): seq<bytes> {
    var m := MaxPayload(meta, maxPacketBytes);
    if m <= 0 then []
    else
      CeilingDivision(|frame|, m);
      seq(PacketCount(|frame|, m), i requires 0 <= i => PacketAt(meta, frame, m, i))
  }

  lemma CeilingDivision(total: nat, m: nat)
    requires m > 0
    ensures PacketCount(total, m) > 0
    ensures total == 0 ==> PacketCount(total, m) == 1
    ensures total > 0 ==> (PacketCount(total, m) - 1) * m < total <= PacketCount(total, m) * m
  {
    if total > 0 {
      var n := total + m - 1;
      assert n == m * (n / m) + n % m;
      assert (n / m - 1) * m == m * (n / m) - m;
    }
  }

  /** The payload of packet `i`; the length subtraction does not underflow. */
  method CutPayload(frame: bytes, m: nat, i: nat) returns (payload: bytes)
    requires m > 0 && i < PacketCount(|frame|, m)
    ensures payload == Slice(frame, m, i)
  {
    hide PacketCount;
    CeilingDivision(|frame|, m);
    if frame != [] {
      MulMono(i, PacketCount(|frame|, m) - 1, m);
    }
    var start := i * m;
    var len := Min(m, |frame| - start);
    payload := frame[start..start + len];
  }

  method Packetize(meta: FrameMeta, encrypted: bytes, maxPacketBytes: nat) returns (out: seq<bytes>)
    ensures out == Packets(meta, encrypted, maxPacketBytes)
  {
    hide HeaderBytes, PacketCount, Slice;
    out := [];
    var headerBytes := 12 + CastHeaderSize(meta.hasReference);
    if maxPacketBytes <= headerBytes {
      return;
    }
    var m := maxPacketBytes - headerBytes;
    var total := |encrypted|;
    var count := PacketCount(total, m);
    CeilingDivision(total, m);
    var maxPacketId := (count - 1) % TWO_16;
    var i := 0;
    while i < count
      invariant 0 <= i <= count
      invariant |out| == i
      invariant forall k :: 0 <= k < i ==> out[k] == PacketAt(meta, encrypted, m, k)
    {
      var h := RtpHeader(
        meta.payloadType, (meta.seqStart + i) % TWO_16, meta.rtpTimestamp, meta.ssrc, meta.keyFrame,
        meta.frameId, i % TWO_16, maxPacketId, meta.hasReference, meta.referenceFrameId);
      var payload := CutPayload(encrypted, m, i);
      var pkt := BuildRtpPacket(h, payload);
      assert pkt == PacketAt(meta, encrypted, m, i);
      out := out + [pkt];
      i := i + 1;
    }
  }

  lemma {:induction false} JoinSlices(frame: bytes, m: nat, k: nat)
    ensures Join(seq(k, i requires 0 <= i => Slice(frame, m, i))) == frame[..Min(k * m, |frame|)]
  {
    if k > 0 {
      hide Slice;
      var init := seq(k - 1, i requires 0 <= i => Slice(frame, m, i));
      JoinSlices(frame, m, k - 1);
      assert seq(k, i requires 0 <= i => Slice(frame, m, i)) == init + [Slice(frame, m, k - 1)];
      JoinSnoc(init, Slice(frame, m, k - 1));
      SliceExtends(frame, m, k - 1);
    }
  }

  lemma SliceExtends(frame: bytes, m: nat, i: nat)
    ensures frame[..Min(i * m, |frame|)] + Slice(frame, m, i) == frame[..Min((i + 1) * m, |frame|)]
  {
    assert (i + 1) * m == i * m + m;
    MulMono(0, i, m);
  }

  /** Every packet fits the limit, the payloads spell the frame, and the parsed fields are the frame's. */
  lemma PacketsSplitTheFrame(meta: FrameMeta, frame: bytes, maxPacketBytes: nat)
    requires MaxPayload(meta, maxPacketBytes) > 0
    ensures var ps := Packets(meta, frame, maxPacketBytes);
            var m := MaxPayload(meta, maxPacketBytes);
            && 0 < |ps| == PacketCount(|frame|, m)
            && (forall i :: 0 <= i < |ps| ==>
                  && |ps[i]| <= maxPacketBytes
                  && ParseRtpPacket(ps[i]) == Some(Packet(OnWire(HeaderAt(meta, |ps|, i)), Slice(frame, m, i))))
            && Join(seq(|ps|, i requires 0 <= i => Slice(frame, m, i))) == frame
  {
    hide HeaderBytes, PacketCount, Slice, ParseRtpPacket;
    var m := MaxPayload(meta, maxPacketBytes);
    var ps := Packets(meta, frame, maxPacketBytes);
    CeilingDivision(|frame|, m);
    forall i | 0 <= i < |ps|
      ensures && |ps[i]| <= maxPacketBytes
              && ParseRtpPacket(ps[i]) == Some(Packet(OnWire(HeaderAt(meta, |ps|, i)), Slice(frame, m, i)))
    {
      assert ps[i] == PacketAt(meta, frame, m, i);
      ParseInvertsBuild(HeaderAt(meta, |ps|, i), Slice(frame, m, i));
    }
    JoinSlices(frame, m, |ps|);
  }

  lemma {:induction false} JoinBound(parts: seq<bytes>, m: nat)
    requires forall s :: s in parts ==> |s| <= m
    ensures |Join(parts)| <= |parts| * m
  {
    if parts != [] {
      JoinBound(parts[1..], m);
      assert |parts| * m == |parts[1..]| * m + m;
    }
  }

  /** No way of cutting the frame into payloads of the permitted size uses fewer packets. */
  lemma PacketCountIsMinimal(frame: bytes, m: nat, parts: seq<bytes>)
    requires m > 0
    requires parts != [] && Join(parts) == frame && forall s :: s in parts ==> |s| <= m
    ensures PacketCount(|frame|, m) <= |parts|
  {
    hide PacketCount, Join;
    var c := PacketCount(|frame|, m);
    JoinBound(parts, m);
    CeilingDivision(|frame|, m);
    if |parts| <= c - 1 && |frame| > 0 {
      MulMono(|parts|, c - 1, m);
      assert false;
    }
  }
}
