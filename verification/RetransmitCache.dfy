/**
 The retransmission cache of one stream (optional/cast/MirrorSession.cpp): the packets of recent frames
 keyed by the 8-bit frame id, the queue that decides what to evict, and the answer to one NACK entry.
 */
module RetransmitCache {
  import opened Bytes
  import opened Arith
  import opened Options
  import opened Rtcp

  type Table = map<byte, seq<bytes>>

  datatype Cache = Cache(sent: Table, order: seq<byte>)

  const EMPTY := Cache(map[], [])

  // ------------------------------------------------------------------ insertion and eviction

  /** Pop from the front until the queue fits, forgetting ids that no longer occur in it. */
  function Evict(c: Cache, window: nat): Cache
    decreases |c.order|
  {
    if |c.order| <= window then c
    else
      var oldest, rest := c.order[0], c.order[1..];
      Evict(Cache(if oldest in rest then c.sent else c.sent - {oldest}, rest), window)
  }

  function Remember(c: Cache, window: nat, id: byte, packets: seq<bytes>): Cache {
    Evict(Cache(c.sent[id := packets], c.order + [id]), window)
  }

  method RememberFrame(c: Cache, window: nat, id: byte, packets: seq<bytes>) returns (r: Cache)
    ensures r == Remember(c, window, id, packets)
  {
    var sent := c.sent[id := packets];
    var order := c.order + [id];
    while |order| > window
      invariant Evict(Cache(sent, order), window) == Remember(c, window, id, packets)
      decreases |order|
    {
      var oldest := order[0];
      order := order[1..];
      var stillReferenced := false;
      var k := 0;
      while k < |order| && !stillReferenced
        invariant 0 <= k <= |order|
        invariant stillReferenced ==> oldest in order
        invariant !stillReferenced ==> oldest !in order[..k]
        decreases |order| - k, !stillReferenced
      {
        if order[k] == oldest {
          stillReferenced := true;
        } else {
          k := k + 1;
        }
      }
      assert order[..|order|] == order;
      if !stillReferenced {
        sent := sent - {oldest};
      }
    }
    r := Cache(sent, order);
  }

  // ------------------------------------------------------------------ what the cache holds

  /** One frame handed to the cache. */
  datatype SentFrame = SentFrame(frameId: byte, packets: seq<bytes>)

  function Ids(h: seq<SentFrame>): seq<byte> {
    seq(|h|, k requires 0 <= k < |h| => h[k].frameId)
  }

  function Recent(h: seq<SentFrame>, window: nat): seq<SentFrame> {
    if |h| <= window then h else h[|h| - window..]
  }

  /** The packets of the newest frame with this id. */
  function Newest(h: seq<SentFrame>, id: byte): Option<seq<bytes>> {
    if h == [] then None
    else if h[|h| - 1].frameId == id then Some(h[|h| - 1].packets)
    else Newest(h[..|h| - 1], id)
  }

  /** The table maps exactly the queued ids, each to its newest packets. */
  ghost predicate Fits(sent: Table, order: seq<byte>, h: seq<SentFrame>) {
    && (forall id: byte :: id in sent <==> id in order)
    && (forall id: byte :: id in sent ==> Newest(h, id) == Some(sent[id]))
  }

  /** The queue lists the ids of the last `window` frames, and the table fits it. */
  ghost predicate Holds(c: Cache, h: seq<SentFrame>, window: nat) {
    c.order == Ids(Recent(h, window)) && Fits(c.sent, c.order, h)
  }

  lemma FitsAfterPush(sent: Table, order: seq<byte>, h: seq<SentFrame>, f: SentFrame)
    requires Fits(sent, order, h)
    ensures Fits(sent[f.frameId := f.packets], order + [f.frameId], h + [f])
  {
    assert (h + [f])[..|h|] == h;
  }

  lemma FitsAfterPop(sent: Table, order: seq<byte>, h: seq<SentFrame>)
    requires Fits(sent, order, h) && order != []
    ensures Fits(if order[0] in order[1..] then sent else sent - {order[0]}, order[1..], h)
  {
    hide Newest;
    assert order == [order[0]] + order[1..];
  }

  /** For any window and any id sequence, inserting keeps the cache exact. */
  lemma RememberIsExact(c: Cache, h: seq<SentFrame>, window: nat, f: SentFrame)
    requires Holds(c, h, window)
    ensures Holds(Remember(c, window, f.frameId, f.packets), h + [f], window)
  {
    hide Fits, Newest;
    var sent, order := c.sent[f.frameId := f.packets], c.order + [f.frameId];
    var r := Remember(c, window, f.frameId, f.packets);
    FitsAfterPush(c.sent, c.order, h, f);
    assert order == Ids(Recent(h, window) + [f]);
    if |order| > window {
      FitsAfterPop(sent, order, h + [f]);
      var rest := Cache(if order[0] in order[1..] then sent else sent - {order[0]}, order[1..]);
      assert r == Evict(rest, window) == rest;
      assert Recent(h + [f], window) == (Recent(h, window) + [f])[1..];
      assert order[1..] == Ids(Recent(h + [f], window));
    } else {
      assert r == Cache(sent, order);
      assert Recent(h + [f], window) == Recent(h, window) + [f];
    }
  }

  /** Frame ids that count up, truncated to 8 bits. */
  ghost predicate CountsUp(h: seq<SentFrame>) {
    forall k :: 0 <= k < |h| ==> h[k].frameId == k % TWO_8
  }

  lemma NewestOfCount(h: seq<SentFrame>, k: nat)
    requires CountsUp(h) && |h| - TWO_8 <= k < |h|
    ensures Newest(h, k % TWO_8) == Some(h[k].packets)
  {
    if k < |h| - 1 {
      CongruentAndClose(|h| - 1, k, TWO_8);
      NewestOfCount(h[..|h| - 1], k);
    }
  }

  lemma RecentIds(h: seq<SentFrame>, window: nat)
    requires CountsUp(h)
    ensures var ids, n := Ids(Recent(h, window)), Min(window, |h|);
            |ids| == n && forall i :: 0 <= i < n ==> ids[i] == (|h| - n + i) % TWO_8
  {
  }

  /**
   With counting ids and a window of at most 256, the cache holds exactly the last `window` frames,
   each under its truncated id, for as long as the run lasts.
   */
  lemma CacheHoldsTheWindow(c: Cache, h: seq<SentFrame>, window: nat)
    requires Holds(c, h, window) && CountsUp(h) && window <= TWO_8
    ensures forall k :: 0 <= k < |h| && |h| - window <= k ==> k % TWO_8 in c.sent && c.sent[k % TWO_8] == h[k].packets
    ensures forall id: byte :: id in c.sent ==> exists k :: 0 <= k < |h| && |h| - window <= k && id == k % TWO_8
    ensures |c.sent| == Min(window, |h|)
  {
    hide Newest, Ids, Recent;
    var base := |h| - Min(window, |h|);
    RecentIds(h, window);
    forall k | 0 <= k < |h| && |h| - window <= k
      ensures k % TWO_8 in c.sent && c.sent[k % TWO_8] == h[k].packets
    {
      assert c.order[k - base] == k % TWO_8;
      NewestOfCount(h, k);
    }
    forall id: byte | id in c.sent
      ensures exists k :: 0 <= k < |h| && |h| - window <= k && id == k % TWO_8
    {
      var i :| 0 <= i < |c.order| && c.order[i] == id;
      assert id == (base + i) % TWO_8;
    }
    DistinctCount(c, base);
  }

  lemma DistinctCount(c: Cache, base: nat)
    requires forall id: byte :: id in c.sent <==> id in c.order
    requires |c.order| <= TWO_8 && forall i :: 0 <= i < |c.order| ==> c.order[i] == (base + i) % TWO_8
    ensures |c.sent| == |c.order|
  {
    forall i, j | 0 <= i < j < |c.order|
      ensures c.order[i] != c.order[j]
    {
      CongruentAndClose(base + i, base + j, TWO_8);
    }
    DistinctElements(c.order);
    forall id: byte ensures id in c.sent.Keys <==> id in Elements(c.order) {
    }
    assert c.sent.Keys == Elements(c.order);
  }

  function Elements(s: seq<byte>): set<byte> {
    if s == [] then {} else Elements(s[..|s| - 1]) + {s[|s| - 1]}
  }

  lemma {:induction false} DistinctElements(s: seq<byte>)
    ensures forall x: byte :: x in Elements(s) <==> x in s
    ensures (forall i, j :: 0 <= i < j < |s| ==> s[i] != s[j]) ==> |Elements(s)| == |s|
  {
    if s != [] {
      var init, last := s[..|s| - 1], s[|s| - 1];
      DistinctElements(init);
      assert s == init + [last];
      if forall i, j :: 0 <= i < j < |s| ==> s[i] != s[j] {
        forall i, j | 0 <= i < j < |init| ensures init[i] != init[j] {
          assert s[i] == init[i] && s[j] == init[j];
        }
        assert last !in init;
      }
    }
  }

  /** In a queue of counting ids, an id popped from the front comes again exactly 256 places later. */
  lemma PoppedAgain(n: nat, window: nat, popped: byte, queue: seq<byte>)
    requires 0 < window <= n && popped == (n - window) % TWO_8
    requires |queue| == window && forall k :: 0 <= k < window ==> queue[k] == (n - window + 1 + k) % TWO_8
    ensures popped in queue <==> window >= TWO_8
  {
    if window >= TWO_8 {
      AddMultiple(n - window, TWO_8, 1);
      assert queue[TWO_8 - 1] == popped;
    } else if popped in queue {
      var k :| 0 <= k < window && queue[k] == popped;
      CongruentAndClose(n - window, n - window + 1 + k, TWO_8);
    }
  }

  /**
   The still-referenced guard, exactly: when a frame is inserted into a full cache of counting frames, the
   id then popped still occurs in the queue if and only if the window reaches 256 frames.
   */
  lemma GuardFires(c: Cache, h: seq<SentFrame>, window: nat, f: SentFrame)
    requires Holds(c, h, window) && CountsUp(h + [f]) && 0 < window <= |h|
    ensures var order := c.order + [f.frameId];
            |order| == window + 1 && (order[0] in order[1..] <==> window >= TWO_8)
  {
    hide Ids, Recent, Fits;
    assert forall k :: 0 <= k < |h| ==> (h + [f])[k] == h[k];
    assert (h + [f])[|h|] == f;
    RecentIds(h, window);
    var order := c.order + [f.frameId];
    PoppedAgain(|h|, window, order[0], order[1..]);
  }

  // ------------------------------------------------------------------ answering a NACK

  const WHOLE_FRAME: uint16 := 0xffff

  predicate Bit(mask: byte, b: nat) {
    mask / Pow2(b) % 2 == 1
  }

  function Resend(packets: seq<bytes>, pid: nat): seq<bytes> {
    if pid < |packets| then [packets[pid]] else []
  }

  /** The packets named by mask bits b..7. */
  function ResendMasked(packets: seq<bytes>, pid: nat, mask: byte, b: nat): seq<bytes>
    requires b <= 8
    decreases 8 - b
  {
    if b == 8 then []
    else (if Bit(mask, b) then Resend(packets, pid + 1 + b) else []) + ResendMasked(packets, pid, mask, b + 1)
  }

  /** The answer to one NACK entry. */
  function Resends(sent: Table, n: Nack): seq<bytes> {
    if n.frameId !in sent then []
    else if n.packetId == WHOLE_FRAME then sent[n.frameId]
    else Resend(sent[n.frameId], n.packetId) + ResendMasked(sent[n.frameId], n.packetId, n.mask, 0)
  }

  /** Packet `i` is asked for: the whole frame, the named packet, or one of the eight after it. */
  ghost predicate Covers(n: Nack, i: nat) {
    || n.packetId == WHOLE_FRAME
    || i == n.packetId
    || (n.packetId < i <= n.packetId + 8 && Bit(n.mask, i - n.packetId - 1))
  }

  lemma {:induction false} MaskedAre(packets: seq<bytes>, pid: nat, mask: byte, b: nat, p: bytes)
    requires b <= 8
    ensures p in ResendMasked(packets, pid, mask, b) <==>
            exists i :: pid + 1 + b <= i <= pid + 8 && Bit(mask, i - pid - 1) && i < |packets| && packets[i] == p
    decreases 8 - b
  {
    if b < 8 {
      hide Bit;
      MaskedAre(packets, pid, mask, b + 1, p);
      var head := if Bit(mask, b) then Resend(packets, pid + 1 + b) else [];
      assert p in ResendMasked(packets, pid, mask, b) <==> p in head || p in ResendMasked(packets, pid, mask, b + 1);
      if p in head {
        assert Bit(mask, (pid + 1 + b) - pid - 1);
      }
    }
  }

  /** A NACK entry is answered with exactly the cached packets it covers. */
  lemma ResendsExactly(sent: Table, n: Nack, p: bytes)
    ensures p in Resends(sent, n) <==>
            n.frameId in sent && exists i :: 0 <= i < |sent[n.frameId]| && Covers(n, i) && sent[n.frameId][i] == p
  {
    hide Bit, ResendMasked;
    if n.frameId in sent {
      var ps, pid := sent[n.frameId], n.packetId;
      var rest := ResendMasked(ps, pid, n.mask, 0);
      if pid != WHOLE_FRAME {
        MaskedAre(ps, pid, n.mask, 0, p);
        assert p in Resends(sent, n) <==> p in Resend(ps, pid) || p in rest;
        if p in Resend(ps, pid) {
          assert Covers(n, pid) && ps[pid] == p;
        } else if p in rest {
          var i :| pid + 1 <= i <= pid + 8 && Bit(n.mask, i - pid - 1) && i < |ps| && ps[i] == p;
          assert Covers(n, i);
        }
      }
    }
  }

  function Pick(packets: seq<bytes>, i: nat, wanted: bool): seq<bytes> {
    if wanted && i < |packets| then [packets[i]] else []
  }

  /** One mask bit, of the value `unit`. */
  lemma MaskedStep(packets: seq<bytes>, pid: nat, mask: byte, b: nat, low: nat, unit: nat, bit: nat, high: nat)
    requires b < 8 && Pow2(b) == unit && mask == low + unit * (bit + 2 * high) && low < unit && bit < 2
    ensures ResendMasked(packets, pid, mask, b)
         == Pick(packets, pid + 1 + b, bit == 1) + ResendMasked(packets, pid, mask, b + 1)
    ensures Pow2(b + 1) == 2 * unit
  {
    Quotient(mask, unit, bit + 2 * high, low);
    Quotient(bit + 2 * high, 2, high, bit);
  }

  /**
   The answer packet by packet: all in order for id 65535, else the named one, then one for each mask bit set, the
   least significant bit `b0` naming the next packet.
   */
  lemma ResendsInOrder(
      sent: Table, n: Nack, b0: nat, b1: nat, b2: nat, b3: nat, b4: nat, b5: nat, b6: nat, b7: nat)
    requires b0 < 2 && b1 < 2 && b2 < 2 && b3 < 2 && b4 < 2 && b5 < 2 && b6 < 2 && b7 < 2
    requires n.mask == b0 + 2 * b1 + 4 * b2 + 8 * b3 + 16 * b4 + 32 * b5 + 64 * b6 + 128 * b7
    ensures n.frameId !in sent ==> Resends(sent, n) == []
    ensures n.frameId in sent && n.packetId == 65535 ==> Resends(sent, n) == sent[n.frameId]
    ensures n.frameId in sent && n.packetId != 65535 ==>
              var ps, id := sent[n.frameId], n.packetId as int;
              Resends(sent, n) ==
              Pick(ps, id, true) + (Pick(ps, id + 1, b0 == 1) + (Pick(ps, id + 2, b1 == 1)
              + (Pick(ps, id + 3, b2 == 1) + (Pick(ps, id + 4, b3 == 1) + (Pick(ps, id + 5, b4 == 1)
              + (Pick(ps, id + 6, b5 == 1) + (Pick(ps, id + 7, b6 == 1) + Pick(ps, id + 8, b7 == 1))))))))
  {
    if n.frameId in sent && n.packetId != WHOLE_FRAME {
      hide ResendMasked, Pow2, Pick;
      var ps, id := sent[n.frameId], n.packetId as int;
      var low := b0 + 2 * b1 + 4 * b2 + 8 * b3;
      PowOfZero();
      MaskedFour(ps, id, n.mask, 0, 0, 1, b0, b1, b2, b3, b4 + 2 * b5 + 4 * b6 + 8 * b7);
      MaskedFour(ps, id, n.mask, 4, low, 16, b4, b5, b6, b7, 0);
      NothingMasked(ps, id, n.mask);
      PickFirst(ps, id);
      assert Pick(ps, id + 8, b7 == 1) + [] == Pick(ps, id + 8, b7 == 1);
    }
  }

  /** The bits above, in units of theirs. */
  lemma Regroup(unit: nat, k: nat, low: nat, high: nat)
    requires low < k
    ensures unit * (low + k * high) == unit * low + k * unit * high
    ensures unit > 0 ==> unit * low <= (k - 1) * unit
  {
    MulMono(low, k - 1, unit);
    assert unit * (k * high) == k * unit * high;
  }

  lemma MaskedTwo(
      packets: seq<bytes>, pid: nat, mask: byte, b: nat, low: nat, unit: nat, x: nat, y: nat, high: nat)
    requires b + 2 <= 8 && Pow2(b) == unit && low < unit && x < 2 && y < 2
    requires mask == low + unit * (x + 2 * y + 4 * high)
    ensures ResendMasked(packets, pid, mask, b)
         == Pick(packets, pid + 1 + b, x == 1) + (Pick(packets, pid + 2 + b, y == 1)
             + ResendMasked(packets, pid, mask, b + 2))
    ensures Pow2(b + 2) == 4 * unit
  {
    hide Bit, ResendMasked, Pow2, Pick;
    var h := y + 2 * high;
    assert x + 2 * y + 4 * high == x + 2 * h;
    Regroup(unit, 2, x, h);
    MaskedStep(packets, pid, mask, b, low, unit, x, h);
    MaskedStep(packets, pid, mask, b + 1, low + unit * x, 2 * unit, y, high);
  }

  /** Four mask bits, the first of the value `unit`. */
  lemma MaskedFour(
      packets: seq<bytes>, pid: nat, mask: byte, b: nat, low: nat, unit: nat, x: nat, y: nat, z: nat, w: nat, high: nat)
    requires b + 4 <= 8 && Pow2(b) == unit && low < unit && x < 2 && y < 2 && z < 2 && w < 2
    requires mask == low + unit * (x + 2 * y + 4 * z + 8 * w + 16 * high)
    ensures ResendMasked(packets, pid, mask, b)
         == Pick(packets, pid + 1 + b, x == 1) + (Pick(packets, pid + 2 + b, y == 1)
            + (Pick(packets, pid + 3 + b, z == 1) + (Pick(packets, pid + 4 + b, w == 1)
            + ResendMasked(packets, pid, mask, b + 4))))
    ensures Pow2(b + 4) == 16 * unit
  {
    hide Bit, ResendMasked, Pow2, Pick;
    var h := z + 2 * w + 4 * high;
    assert x + 2 * y + 4 * z + 8 * w + 16 * high == (x + 2 * y) + 4 * h;
    Regroup(unit, 4, x + 2 * y, h);
    MaskedTwo(packets, pid, mask, b, low, unit, x, y, h);
    MaskedTwo(packets, pid, mask, b + 2, low + unit * (x + 2 * y), 4 * unit, z, w, high);
  }

  lemma PowOfZero()
    ensures Pow2(0) == 1
  {
  }

  lemma NothingMasked(packets: seq<bytes>, pid: nat, mask: byte)
    ensures ResendMasked(packets, pid, mask, 8) == []
  {
  }

  lemma PickFirst(packets: seq<bytes>, pid: nat)
    ensures Pick(packets, pid, true) == Resend(packets, pid)
  {
  }

  function ResendAll(sent: Table, nacks: seq<Nack>): seq<bytes> {
    if nacks == [] then [] else ResendAll(sent, nacks[..|nacks| - 1]) + Resends(sent, nacks[|nacks| - 1])
  }

  lemma {:induction false} ResendAllExactly(sent: Table, nacks: seq<Nack>, p: bytes)
    ensures p in ResendAll(sent, nacks) <==> exists k :: 0 <= k < |nacks| && p in Resends(sent, nacks[k])
  {
    hide Resends;
    if nacks != [] {
      ResendAllExactly(sent, nacks[..|nacks| - 1], p);
    }
  }
}
