/**
 The Cast frame reassembler (optional/cast/CastTransport.cpp): what a receiver holding some packets of
 a frame, in any order and with repeats, makes of them.
 */
module CastReassembly {
  import opened Bytes
  import opened Arith
  import opened Options
  import opened CastPackets

  /** All packets parse and announce the same last packet id. */
  predicate SameFraming(packets: seq<bytes>, max: int) {
    forall p :: p in packets ==> ParseRtpPacket(p).Some? && ParseRtpPacket(p).value.header.maxPacketId == max
  }

  predicate Carries(p: bytes, id: int) {
    ParseRtpPacket(p).Some? && ParseRtpPacket(p).value.header.packetId == id
  }

  /** The payload of the last packet carrying `id`. */
  function Latest(packets: seq<bytes>, id: int): Option<bytes> {
    if packets == [] then None
    else if Carries(packets[|packets| - 1], id) then Some(ParseRtpPacket(packets[|packets| - 1]).value.payload)
    else Latest(packets[..|packets| - 1], id)
  }

  /** Exactly the ids 0..max are present. */
  predicate Complete(packets: seq<bytes>, max: int) {
    forall id :: 0 <= id < TWO_16 ==> (Latest(packets, id).Some? <==> id <= max)
  }

  function AnnouncedMax(packets: seq<bytes>): int {
    if packets != [] && ParseRtpPacket(packets[0]).Some? then ParseRtpPacket(packets[0]).value.header.maxPacketId
    else -1
  }

  function PayloadOf(packets: seq<bytes>, id: int): bytes {
    var q := Latest(packets, id);
    if q.Some? then q.value else []
  }

  function Payloads(packets: seq<bytes>, n: nat): seq<bytes> {
    seq(n, id => PayloadOf(packets, id))
  }

  /** What the receiver delivers; empty when framing is inconsistent or an id is missing. */
  ghost function Reassembled(packets: seq<bytes>): bytes {
    var max := AnnouncedMax(packets);
    if max >= 0 && SameFraming(packets, max) && Complete(packets, max) then Join(Payloads(packets, max + 1)) else []
  }

  // ------------------------------------------------------------------ the algorithm

  /** The by-id table holds the latest payload of every id seen so far. */
  ghost predicate TableOf(byId: map<int, bytes>, packets: seq<bytes>) {
    && (forall id :: id in byId ==> 0 <= id < TWO_16)
    && (forall id :: 0 <= id < TWO_16 ==>
          Latest(packets, id) == if id in byId then Some(byId[id]) else None)
  }

  method Reassemble(packets: seq<bytes>) returns (frame: bytes)
    ensures frame == Reassembled(packets)
  {
    var byId: map<int, bytes> := map[];
    var expectedMax: int := -1;
    var k := 0;
    while k < |packets|
      invariant 0 <= k <= |packets|
      invariant expectedMax == if k == 0 then -1 else AnnouncedMax(packets)
      invariant k > 0 ==> expectedMax >= 0
      invariant SameFraming(packets[..k], expectedMax)
      invariant TableOf(byId, packets[..k])
    {
      hide ParseRtpPacket;
      var pkt := packets[k];
      var q := ParseRtpPacket(pkt);
      if q.None? {
        RefusedFraming(packets, k);
        return [];
      }
      if expectedMax < 0 {
        expectedMax := q.value.header.maxPacketId;
      } else if expectedMax != q.value.header.maxPacketId {
        RefusedFraming(packets, k);
        return [];
      }
      TableGrows(byId, packets[..k], pkt);
      assert packets[..k + 1] == packets[..k] + [pkt];
      byId := byId[q.value.header.packetId := q.value.payload];
      k := k + 1;
    }
    assert packets[..k] == packets;
    if expectedMax < 0 {
      return [];
    }
    if |byId| != expectedMax + 1 {
      SizeDecides(byId, packets, expectedMax);
      return [];
    }
    frame := [];
    var i := 0;
    while i <= expectedMax
      invariant 0 <= i <= expectedMax + 1
      invariant forall id :: 0 <= id < i ==> id in byId
      invariant frame == Join(Payloads(packets, i))
    {
      hide ParseRtpPacket, Join, Latest;
      if i !in byId {
        assert !Complete(packets, expectedMax) by { assert Latest(packets, i).None?; }
        return [];
      }
      assert Payloads(packets, i + 1) == Payloads(packets, i) + [byId[i]];
      JoinSnoc(Payloads(packets, i), byId[i]);
      frame := frame + byId[i];
      i := i + 1;
    }
    SizeDecides(byId, packets, expectedMax);
  }

  lemma RefusedFraming(packets: seq<bytes>, k: nat)
    requires k < |packets|
    requires var q := ParseRtpPacket(packets[k]); q.None? || q.value.header.maxPacketId != AnnouncedMax(packets)
    ensures Reassembled(packets) == []
  {
    hide ParseRtpPacket;
    assert packets[k] in packets;
  }

  lemma TableGrows(byId: map<int, bytes>, packets: seq<bytes>, p: bytes)
    requires TableOf(byId, packets)
    requires ParseRtpPacket(p).Some?
    ensures var q := ParseRtpPacket(p).value;
            TableOf(byId[q.header.packetId := q.payload], packets + [p])
  {
    hide ParseRtpPacket;
    assert (packets + [p])[..|packets|] == packets;
  }

  /** With all of 0..max in the table, its size says whether anything else is. */
  lemma SizeDecides(byId: map<int, bytes>, packets: seq<bytes>, max: uint16)
    requires TableOf(byId, packets)
    ensures |byId| == max + 1 && (forall id :: 0 <= id <= max ==> id in byId) <==> Complete(packets, max)
  {
    hide Latest;
    var keys := byId.Keys;
    if |byId| == max + 1 && forall id :: 0 <= id <= max ==> id in byId {
      ExactlyBelow(keys, max + 1);
      BelowIs(max + 1);
      forall id | 0 <= id < TWO_16
        ensures Latest(packets, id).Some? <==> id <= max
      {
        assert id in keys <==> id in Below(max + 1);
      }
    }
    if Complete(packets, max) {
      BelowIs(max + 1);
      forall id | 0 <= id < TWO_16
        ensures id in keys <==> id in Below(max + 1)
      {
        assert Latest(packets, id).Some? <==> id <= max;
      }
      assert keys == Below(max + 1);
    }
  }

  function Below(n: nat): set<int> {
    if n == 0 then {} else Below(n - 1) + {n - 1}
  }

  lemma {:induction false} BelowIs(n: nat)
    ensures |Below(n)| == n
    ensures forall i :: i in Below(n) <==> 0 <= i < n
  {
    if n > 0 {
      BelowIs(n - 1);
    }
  }

  /** A finite set of `n` elements that contains 0..n-1 contains nothing else. */
  lemma ExactlyBelow(keys: set<int>, n: nat)
    requires forall i :: 0 <= i < n ==> i in keys
    requires |keys| == n
    ensures keys == Below(n)
  {
    BelowIs(n);
    forall i | i in Below(n) ensures i in keys {
    }
    assert keys == Below(n) + (keys - Below(n));
    assert |keys - Below(n)| == 0;
  }

  // ------------------------------------------------------------------ round trips

  /** `got` consists of packets of the frame, in any order and with any repeats. */
  predicate OnlyFrom(got: seq<bytes>, ps: seq<bytes>) {
    forall p :: p in got ==> p in ps
  }

  predicate AllOf(got: seq<bytes>, ps: seq<bytes>) {
    forall p :: p in ps ==> p in got
  }

  /** The split of a frame, as seen by a parser. */
  ghost predicate Splits(ps: seq<bytes>, slices: seq<bytes>) {
    && |ps| == |slices| > 0
    && forall i :: 0 <= i < |ps| ==>
         && ParseRtpPacket(ps[i]).Some?
         && ParseRtpPacket(ps[i]).value.header.packetId == i % TWO_16
         && ParseRtpPacket(ps[i]).value.header.maxPacketId == (|ps| - 1) % TWO_16
         && ParseRtpPacket(ps[i]).value.payload == slices[i]
  }

  /** With ids that do not wrap, a packet's id picks out its slice, and exactly the received ids are present. */
  lemma {:induction false} LatestOfSplit(ps: seq<bytes>, slices: seq<bytes>, got: seq<bytes>, i: nat)
    requires Splits(ps, slices) && |ps| <= TWO_16 && OnlyFrom(got, ps)
    requires i < TWO_16
    ensures Latest(got, i) == if i < |ps| && ps[i] in got then Some(slices[i]) else None
  {
    hide ParseRtpPacket;
    if got != [] {
      var last := got[|got| - 1];
      var init := got[..|got| - 1];
      assert got == init + [last];
      assert last in ps;
      var j :| 0 <= j < |ps| && ps[j] == last;
      LatestOfSplit(ps, slices, init, i);
      if i == j {
      } else if i < |ps| {
        assert ps[i] != ps[j];
      }
    }
  }

  lemma FramingOfSplit(ps: seq<bytes>, slices: seq<bytes>, got: seq<bytes>)
    requires Splits(ps, slices) && OnlyFrom(got, ps) && got != []
    ensures AnnouncedMax(got) == (|ps| - 1) % TWO_16
    ensures SameFraming(got, AnnouncedMax(got))
  {
    hide ParseRtpPacket;
    forall p | p in got
      ensures ParseRtpPacket(p).Some? && ParseRtpPacket(p).value.header.maxPacketId == (|ps| - 1) % TWO_16
    {
      assert p in ps;
    }
    assert got[0] in got;
  }

  /** All packets present, in any order and with any repeats: the frame comes back. */
  lemma ReassembledWhole(ps: seq<bytes>, slices: seq<bytes>, got: seq<bytes>)
    requires Splits(ps, slices) && |ps| <= TWO_16
    requires OnlyFrom(got, ps) && AllOf(got, ps)
    ensures Reassembled(got) == Join(slices)
  {
    hide ParseRtpPacket, Latest, Join;
    assert ps[0] in ps;
    FramingOfSplit(ps, slices, got);
    forall i: nat | i < TWO_16
      ensures Latest(got, i) == if i < |ps| then Some(slices[i]) else None
    {
      LatestOfSplit(ps, slices, got, i);
    }
    assert Payloads(got, |ps|) == slices;
  }

  /** Any packet missing: nothing is delivered. */
  lemma ReassembledPart(ps: seq<bytes>, slices: seq<bytes>, got: seq<bytes>)
    requires Splits(ps, slices) && |ps| <= TWO_16
    requires OnlyFrom(got, ps) && !AllOf(got, ps)
    ensures Reassembled(got) == []
  {
    hide ParseRtpPacket, Latest, Join;
    if got != [] {
      FramingOfSplit(ps, slices, got);
      var p :| p in ps && p !in got;
      var i: nat :| i < |ps| && ps[i] == p;
      LatestOfSplit(ps, slices, got, i);
      assert !Complete(got, |ps| - 1);
    }
  }

  /** Whatever is delivered is at most 65536 payloads long. */
  lemma ReassembledBound(got: seq<bytes>, m: nat)
    requires forall p :: p in got && ParseRtpPacket(p).Some? ==> |ParseRtpPacket(p).value.payload| <= m
    ensures |Reassembled(got)| <= TWO_16 * m
  {
    hide ParseRtpPacket, Latest, Join, Complete;
    var max := AnnouncedMax(got);
    if Reassembled(got) != [] {
      var parts := Payloads(got, max + 1);
      forall s | s in parts ensures |s| <= m {
        var id :| 0 <= id < |parts| && parts[id] == s;
        PayloadBound(got, id, m);
      }
      JoinBound(parts, m);
      MulMono(max + 1, TWO_16, m);
    }
  }

  lemma {:induction false} PayloadBound(got: seq<bytes>, id: int, m: nat)
    requires forall p :: p in got && ParseRtpPacket(p).Some? ==> |ParseRtpPacket(p).value.payload| <= m
    ensures |PayloadOf(got, id)| <= m
  {
    hide ParseRtpPacket;
    if got != [] {
      assert got[|got| - 1] in got;
      PayloadBound(got[..|got| - 1], id, m);
    }
  }

  /**
   The round trip, exactly. For packets of one split frame, in any order and with any repeats, the frame
   comes back if and only if it was cut into at most 65536 packets (the ids are 16 bits wide) and all are
   present; of that many, a missing packet yields nothing, which only an empty frame survives.
   */
  lemma RoundTrip(meta: FrameMeta, frame: bytes, maxPacketBytes: nat, got: seq<bytes>)
    requires MaxPayload(meta, maxPacketBytes) > 0
    requires OnlyFrom(got, Packets(meta, frame, maxPacketBytes))
    ensures var ps := Packets(meta, frame, maxPacketBytes);
            && (AllOf(got, ps) ==> (Reassembled(got) == frame <==> |ps| <= TWO_16))
            && (!AllOf(got, ps) && |ps| <= TWO_16 ==> Reassembled(got) == [])
            && (Reassembled(got) == frame <==> |ps| <= TWO_16 && (AllOf(got, ps) || frame == []))
  {
    hide ParseRtpPacket, Slice, Reassembled, Join;
    var m := MaxPayload(meta, maxPacketBytes);
    var ps := Packets(meta, frame, maxPacketBytes);
    var slices := seq(|ps|, i requires 0 <= i => Slice(frame, m, i));
    PacketsSplitTheFrame(meta, frame, maxPacketBytes);
    assert Splits(ps, slices);
    if |ps| <= TWO_16 {
      if AllOf(got, ps) {
        ReassembledWhole(ps, slices, got);
      } else {
        ReassembledPart(ps, slices, got);
      }
    } else {
      forall p | p in got && ParseRtpPacket(p).Some?
        ensures |ParseRtpPacket(p).value.payload| <= m
      {
        assert p in ps;
      }
      ReassembledBound(got, m);
      TooLong(|frame|, m);
    }
  }

  lemma TooLong(total: nat, m: nat)
    requires m > 0 && PacketCount(total, m) > TWO_16
    ensures total > TWO_16 * m
  {
    hide PacketCount;
    CeilingDivision(total, m);
    MulMono(TWO_16, PacketCount(total, m) - 1, m);
  }

  /** The last packet with the id stands at `k`. */
  ghost predicate LastWith(packets: seq<bytes>, id: int, k: nat) {
    && k < |packets| && ParseRtpPacket(packets[k]).Some? && ParseRtpPacket(packets[k]).value.header.packetId == id
    && forall j :: k < j < |packets| && ParseRtpPacket(packets[j]).Some? ==>
         ParseRtpPacket(packets[j]).value.header.packetId != id
  }

  lemma {:induction false} LatestIs(packets: seq<bytes>, id: int, k: nat)
    requires LastWith(packets, id, k)
    ensures Latest(packets, id) == Some(ParseRtpPacket(packets[k]).value.payload)
    decreases |packets|
  {
    hide ParseRtpPacket;
    if k < |packets| - 1 {
      assert !Carries(packets[|packets| - 1], id);
      LatestIs(packets[..|packets| - 1], id, k);
    }
  }

  /**
   What is delivered, told from the packets: when all announce the same last id, none has a larger one and each id
   up to it is there, the payloads of the last packets with each id, in the order of the ids.
   */
  lemma NewestCounts(packets: seq<bytes>, parts: seq<bytes>, at: seq<nat>)
    requires 1 <= |parts| <= 65536 && |at| == |parts|
    requires forall p :: p in packets ==>
               var q := ParseRtpPacket(p);
               q.Some? && q.value.header.maxPacketId == |parts| - 1 && q.value.header.packetId < |parts|
    requires forall id :: 0 <= id < |parts| ==>
               LastWith(packets, id, at[id]) && ParseRtpPacket(packets[at[id]]).value.payload == parts[id]
    ensures Reassembled(packets) == Join(parts)
  {
    hide ParseRtpPacket, LastWith;
    var max := |parts| - 1;
    assert LastWith(packets, 0, at[0]);
    assert packets != [] && packets[0] in packets by { LastIsThere(packets, 0, at[0]); }
    assert AnnouncedMax(packets) == max;
    forall id | 0 <= id < |parts| ensures PayloadOf(packets, id) == parts[id] && Latest(packets, id).Some? {
      LatestIs(packets, id, at[id]);
    }
    forall id | |parts| <= id < TWO_16 ensures Latest(packets, id) == None {
      NoneCarry(packets, id);
    }
    assert Payloads(packets, max + 1) == parts;
  }

  lemma LastIsThere(packets: seq<bytes>, id: int, k: nat)
    requires LastWith(packets, id, k)
    ensures k < |packets|
  {
  }

  lemma {:induction false} NoneCarry(packets: seq<bytes>, id: int)
    requires forall q :: q in packets ==> !Carries(q, id)
    ensures Latest(packets, id) == None
  {
    hide ParseRtpPacket;
    if packets != [] {
      assert packets[|packets| - 1] in packets;
      NoneCarry(packets[..|packets| - 1], id);
    }
  }

  /** One octet more than 65536 full payloads is lost, although every packet arrives. */
  lemma LongFrameIsLost(meta: FrameMeta, maxPacketBytes: nat)
    requires MaxPayload(meta, maxPacketBytes) > 0
    ensures var frame := seq<byte>(TWO_16 * MaxPayload(meta, maxPacketBytes) + 1, _ => 0);
            Reassembled(Packets(meta, frame, maxPacketBytes)) != frame
  {
    hide Reassembled, PacketCount;
    var m := MaxPayload(meta, maxPacketBytes);
    var frame := seq<byte>(TWO_16 * m + 1, _ => 0);
    var ps := Packets(meta, frame, maxPacketBytes);
    CeilingDivision(|frame|, m);
    if |ps| <= TWO_16 {
      MulMono(|ps|, TWO_16, m);
    }
    RoundTrip(meta, frame, maxPacketBytes, ps);
  }
}
