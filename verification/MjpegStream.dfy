/**
 The incremental MJPEG reader (optional/esphome/MjpegStream.cpp): a buffer filled by reads of arbitrary
 sizes, from which successive calls cut frames. Whatever the sizes of the reads, the frames are those of
 the parser that sees the whole stream (section 5.1.1 of RFC 2046).
 */
module MjpegStream {
  import opened Options
  import opened MjpegText

  const READ_BYTES := 8192
  const MAX_FRAME_BYTES := 8 * 1024 * 1024
  const MAX_HEADER_BYTES := 65536

  /**
   The size guard cannot fire before the marker is seen: the last read that still lacks its end stays
   within the limit, or the whole stream does.
   */
  ghost predicate EndsWithin(s: string, m: string, limit: nat) {
    First(s, m).Some? ==> First(s, m).value + |m| + 8191 <= limit || |s| <= limit
  }

  /** The gap before the boundary, the headers and an unmeasured payload stay clear of the size guards. */
  ghost predicate WithinLimits(stream: string, marker: string) {
    && EndsWithin(stream, marker, MAX_FRAME_BYTES)
    && (First(stream, marker).Some? && First(stream, marker).value + |marker| <= |stream| ==>
          var part := stream[First(stream, marker).value + |marker|..];
          && EndsWithin(part, HEADER_END, MAX_HEADER_BYTES)
          && (First(part, HEADER_END).Some? && First(part, HEADER_END).value + 4 <= |part| ==>
                var h := First(part, HEADER_END).value;
                ContentLength(part[..h]) <= 0 ==> EndsWithin(part[h + 4..], marker, MAX_FRAME_BYTES)))
  }

  // ------------------------------------------------------------------ read schedules

  datatype Outcome = Found(at: nat) | Reading(buffered: nat) | TooLarge

  function Total(sizes: seq<nat>): nat {
    if sizes == [] then 0 else Total(sizes[..|sizes| - 1]) + sizes[|sizes| - 1]
  }

  /** Sizes of reads that take at most what is left of the stream. */
  ghost predicate Possible(left: int, sizes: seq<nat>) {
    Total(sizes) <= left && forall r :: r in sizes ==> 1 <= r <= READ_BYTES
  }

  function Look(s: string, m: string, buffered: nat): Outcome
    requires buffered <= |s|
  {
    if First(s[..buffered], m).Some? then Found(First(s[..buffered], m).value) else Reading(buffered)
  }

  /** Looking for a marker in the stream `s`, of which `taken` bytes are buffered, under given read sizes. */
  function Sought(s: string, m: string, limit: nat, taken: nat, sizes: seq<nat>): (r: Outcome)
    requires taken + Total(sizes) <= |s|
    ensures r.Reading? ==> r.buffered == taken + Total(sizes)
    decreases |sizes|
  {
    if sizes == [] then Look(s, m, taken)
    else
      var before, n := Sought(s, m, limit, taken, sizes[..|sizes| - 1]), taken + Total(sizes);
      if !before.Reading? then before else if n > limit then TooLarge else Look(s, m, n)
  }

  /** A prefix holds the marker exactly when it reaches its end. */
  lemma SeenInPrefix(s: string, m: string, taken: nat)
    requires taken <= |s| && m != ""
    ensures First(s[..taken], m).Some? <==> First(s, m).Some? && First(s, m).value + |m| <= taken
    ensures First(s[..taken], m).Some? ==> First(s[..taken], m) == First(s, m)
  {
    hide FirstFrom, OccursAt;
    assert s[..taken] + s[taken..] == s;
    FirstIsStable(s[..taken], s[taken..], m);
    if First(s[..taken], m).Some? {
      FirstFits(s[..taken], m);
    }
  }

  lemma {:induction false} TooLargeNeeds(s: string, m: string, limit: nat, taken: nat, sizes: seq<nat>)
    requires m != "" && Possible(|s| - taken, sizes)
    requires Sought(s, m, limit, taken, sizes) == TooLarge
    ensures |s| > limit && (First(s, m).Some? ==> First(s, m).value + |m| - 1 + READ_BYTES > limit)
    decreases |sizes|
  {
    hide First;
    var init := sizes[..|sizes| - 1];
    var before := Sought(s, m, limit, taken, init);
    assert forall r :: r in init ==> r in sizes;
    if before == TooLarge {
      TooLargeNeeds(s, m, limit, taken, init);
    } else {
      IsLook(s, m, limit, taken, init);
      SeenInPrefix(s, m, before.buffered);
      assert sizes[|sizes| - 1] in sizes;
    }
  }

  lemma IsLook(s: string, m: string, limit: nat, taken: nat, sizes: seq<nat>)
    requires taken + Total(sizes) <= |s| && Sought(s, m, limit, taken, sizes).Reading?
    ensures First(s[..taken + Total(sizes)], m).None?
  {
    hide First;
  }

  lemma NoReads(s: string, m: string, limit: nat, taken: nat)
    requires taken <= |s|
    ensures Total([]) == 0 && Sought(s, m, limit, taken, []) == Look(s, m, taken)
  {
  }

  lemma OneMoreRead(s: string, m: string, limit: nat, taken: nat, sizes: seq<nat>, n: nat)
    requires taken + Total(sizes) + n <= |s|
    requires Sought(s, m, limit, taken, sizes).Reading?
    ensures var more := taken + Total(sizes) + n;
            Total(sizes + [n]) == Total(sizes) + n
            && Sought(s, m, limit, taken, sizes + [n]) == if more > limit then TooLarge else Look(s, m, more)
  {
    hide First;
    assert (sizes + [n])[..|sizes|] == sizes;
  }

  function Ones(n: nat): seq<nat> {
    seq(n, _ => 1)
  }

  /** Byte by byte, as long as the marker's end is not reached. */
  lemma {:induction false} Trickles(s: string, m: string, limit: nat, taken: nat, n: nat)
    requires m != "" && taken + n <= limit && taken + n <= |s|
    requires First(s, m).Some? ==> taken + n < First(s, m).value + |m|
    ensures Total(Ones(n)) == n && Sought(s, m, limit, taken, Ones(n)) == Reading(taken + n)
  {
    hide First;
    SeenInPrefix(s, m, taken + n);
    if n > 0 {
      assert Ones(n)[..n - 1] == Ones(n - 1);
      Trickles(s, m, limit, taken, n - 1);
    }
  }

  /** The last byte before the marker's end, or before the limit, is buffered; the next read passes the limit. */
  lemma TrickleOverflows(s: string, m: string, limit: nat, taken: nat, last: nat)
    requires m != "" && taken <= last <= limit < |s| && limit + 1 - last <= READ_BYTES
    requires First(s, m).Some? ==> last < First(s, m).value + |m|
    ensures exists sizes :: Possible(|s| - taken, sizes) && Sought(s, m, limit, taken, sizes) == TooLarge
  {
    hide First;
    var ones := Ones(last - taken);
    Trickles(s, m, limit, taken, last - taken);
    var sizes := ones + [limit + 1 - last];
    assert sizes[..|sizes| - 1] == ones;
    assert Possible(|s| - taken, sizes) && Sought(s, m, limit, taken, sizes) == TooLarge;
  }

  /**
   The size guard, exactly: with the marker not yet buffered, some schedule of reads makes it fire if and
   only if the stream is longer than the limit and the marker is missing or ends too late.
   */
  lemma GuardIsExact(s: string, m: string, limit: nat, taken: nat)
    requires m != "" && taken <= |s| && taken <= limit && First(s[..taken], m).None?
    ensures (exists sizes :: Possible(|s| - taken, sizes) && Sought(s, m, limit, taken, sizes) == TooLarge)
       <==> |s| > limit && (First(s, m).Some? ==> !EndsWithin(s, m, limit))
  {
    hide First;
    SeenInPrefix(s, m, taken);
    if sizes :| Possible(|s| - taken, sizes) && Sought(s, m, limit, taken, sizes) == TooLarge {
      TooLargeNeeds(s, m, limit, taken, sizes);
    }
    if |s| > limit && (First(s, m).Some? ==> !EndsWithin(s, m, limit)) {
      var last := if First(s, m).Some? && First(s, m).value + |m| - 1 <= limit then First(s, m).value + |m| - 1
          else limit;
      TrickleOverflows(s, m, limit, taken, last);
    }
  }

  lemma NotWithin(s: string, m: string, limit: nat)
    requires |s| > limit && (First(s, m).Some? ==> First(s, m).value + |m| - 1 + READ_BYTES > limit)
    ensures First(s, m).None? || !EndsWithin(s, m, limit)
  {
    hide First;
  }

  lemma FirstFits(s: string, m: string)
    requires First(s, m).Some?
    ensures First(s, m).value + |m| <= |s|
  {
  }

  /** The outcome of a search under the reads that were made for it. */
  function LookedFor(s: string, m: string, limit: nat, taken: int, sizes: seq<nat>): Outcome {
    if 0 <= taken && taken + Total(sizes) <= |s| then Sought(s, m, limit, taken, sizes) else Reading(0)
  }

  /**
   A size guard fires in one of the three searches for a frame, under the reads made for each: before the
   boundary, in the headers, or in a payload without a length. `taken` bytes were buffered at the start.
   */
  ghost predicate Tripped(
      s: string, marker: string, taken: int, gap: seq<nat>, headers: seq<nat>, payload: seq<nat>) {
    match LookedFor(s, marker, MAX_FRAME_BYTES, taken, gap)
    case TooLarge => true
    case Reading(_) => false
    case Found(at) =>
      var begin := at + |marker|;
      begin <= |s| && TrippedPart(s[begin..], marker, taken + Total(gap) - begin, headers, payload)
  }

  ghost predicate TrippedPart(part: string, marker: string, taken: int, headers: seq<nat>, payload: seq<nat>) {
    match LookedFor(part, HEADER_END, MAX_HEADER_BYTES, taken, headers)
    case TooLarge => true
    case Reading(_) => false
    case Found(at) =>
      var begin := at + |HEADER_END|;
      && begin <= |part| && ContentLength(part[..at]) <= 0
      && LookedFor(part[begin..], marker, MAX_FRAME_BYTES, taken + Total(headers) - begin, payload) == TooLarge
  }

  /** Without a marker the guard fires at the first read that takes the buffer past the limit. */
  lemma {:induction false} MissingTrips(s: string, m: string, limit: nat, taken: nat, sizes: seq<nat>)
    requires m != "" && taken + Total(sizes) <= |s| && First(s, m).None?
    ensures Sought(s, m, limit, taken, sizes) == TooLarge <==> sizes != [] && taken + Total(sizes) > limit
    ensures !Sought(s, m, limit, taken, sizes).Found?
    decreases |sizes|
  {
    hide First;
    SeenInPrefix(s, m, taken + Total(sizes));
    if sizes != [] {
      MissingTrips(s, m, limit, taken, sizes[..|sizes| - 1]);
    }
  }

  /**
   The reads are those of one search: each was made while the marker was not yet buffered and the guard had
   not fired, and a search that found nothing has read the stream to its end.
   */
  ghost predicate Conducted(s: string, m: string, limit: nat, taken: int, sizes: seq<nat>) {
    && 0 <= taken && taken + Total(sizes) <= |s| && Ongoing(s, m, limit, taken, sizes)
    && (Sought(s, m, limit, taken, sizes).Reading? ==> taken + Total(sizes) == |s|)
  }

  /** Before its last read the search was still going on. */
  ghost predicate Ongoing(s: string, m: string, limit: nat, taken: nat, sizes: seq<nat>)
    requires taken + Total(sizes) <= |s|
  {
    sizes != [] ==> Sought(s, m, limit, taken, sizes[..|sizes| - 1]).Reading?
  }

  lemma OngoingNext(s: string, m: string, limit: nat, taken: nat, sizes: seq<nat>, n: nat)
    requires taken + Total(sizes) + n <= |s| && Sought(s, m, limit, taken, sizes).Reading?
    ensures taken + Total(sizes + [n]) <= |s| && Ongoing(s, m, limit, taken, sizes + [n])
  {
    hide Sought;
    assert (sizes + [n])[..|sizes|] == sizes;
  }

  lemma OngoingFirst(s: string, m: string, limit: nat, taken: nat)
    requires taken <= |s|
    ensures Total([]) == 0 && Ongoing(s, m, limit, taken, [])
  {
  }

  /** The reads are those for `len` bytes: each was made while fewer were buffered, up to that or to the end. */
  ghost predicate Gathered(s: string, len: int, taken: int, sizes: seq<nat>) {
    && 0 <= taken && taken + Total(sizes) <= |s|
    && (sizes != [] ==> taken + Total(sizes[..|sizes| - 1]) < len)
    && (taken + Total(sizes) < len ==> taken + Total(sizes) == |s|)
  }

  /** The reads of a whole call, split among its searches as they were made. */
  ghost predicate CallReads(
      s: string, marker: string, taken: int, gap: seq<nat>, headers: seq<nat>, payload: seq<nat>) {
    && Conducted(s, marker, MAX_FRAME_BYTES, taken, gap)
    && match LookedFor(s, marker, MAX_FRAME_BYTES, taken, gap)
       case Found(at) =>
         var begin := at + |marker|;
         begin <= |s| && PartReads(s[begin..], marker, taken + Total(gap) - begin, headers, payload)
       case _ => headers == [] && payload == []
  }

  ghost predicate PartReads(part: string, marker: string, taken: int, headers: seq<nat>, payload: seq<nat>) {
    && Conducted(part, HEADER_END, MAX_HEADER_BYTES, taken, headers)
    && match LookedFor(part, HEADER_END, MAX_HEADER_BYTES, taken, headers)
       case Found(at) =>
         var begin, left := at + |HEADER_END|, taken + Total(headers) - (at + |HEADER_END|);
         begin <= |part|
         && if ContentLength(part[..at]) > 0 then Gathered(part[begin..], ContentLength(part[..at]), left, payload)
            else Conducted(part[begin..], marker, MAX_FRAME_BYTES, left, payload)
       case _ => payload == []
  }

  /** The guards' sizes: 8 MB before a boundary, 65536 bytes of headers, 8 MB of a payload without a length. */
  lemma GuardSizes(s: string, marker: string, taken: nat, sizes: seq<nat>)
    requires marker != "" && taken + Total(sizes) <= |s|
    ensures First(s, marker).None? ==>
              (Tripped(s, marker, taken, sizes, [], []) <==> sizes != [] && taken + Total(sizes) > 8_388_608)
    ensures First(s, "\r\n\r\n").None? ==>
              (TrippedPart(s, marker, taken, sizes, []) <==> sizes != [] && taken + Total(sizes) > 65_536)
  {
    hide First, Sought, Total;
    if First(s, marker).None? {
      MissingTrips(s, marker, MAX_FRAME_BYTES, taken, sizes);
    }
    if First(s, HEADER_END).None? {
      MissingTrips(s, HEADER_END, MAX_HEADER_BYTES, taken, sizes);
    }
  }

  predicate Positive(sizes: seq<nat>) {
    forall r :: r in sizes ==> r >= 1
  }

  lemma {:induction false} TotalGrows(sizes: seq<nat>, k: nat)
    requires k <= |sizes| && Positive(sizes)
    ensures Total(sizes[..k]) + (|sizes| - k) <= Total(sizes)
  {
    if k < |sizes| {
      var init := sizes[..|sizes| - 1];
      assert forall r :: r in init ==> r in sizes;
      assert init[..k] == sizes[..k] && sizes[|sizes| - 1] in sizes;
      TotalGrows(init, k);
    } else {
      assert sizes[..k] == sizes;
    }
  }

  lemma {:induction false} ReadingBefore(s: string, m: string, limit: nat, taken: nat, sizes: seq<nat>, k: nat)
    requires k <= |sizes| && Positive(sizes) && taken + Total(sizes) <= |s|
    requires Sought(s, m, limit, taken, sizes).Reading?
    ensures taken + Total(sizes[..k]) <= |s| && Sought(s, m, limit, taken, sizes[..k]).Reading?
  {
    hide First;
    TotalGrows(sizes, k);
    if k < |sizes| {
      var init := sizes[..|sizes| - 1];
      assert forall r :: r in init ==> r in sizes;
      assert init[..k] == sizes[..k];
      ReadingBefore(s, m, limit, taken, init, k);
    } else {
      assert sizes[..k] == sizes;
    }
  }

  /** A search makes no read more than another conducted under the same reads. */
  lemma NoShorterSearch(s: string, m: string, limit: nat, taken: int, a: seq<nat>, b: seq<nat>)
    requires Conducted(s, m, limit, taken, a) && Conducted(s, m, limit, taken, b) && Positive(b)
    requires a <= b
    ensures a == b
  {
    hide Sought;
    assert b[..|a|] == a;
    if |a| < |b| {
      var init := b[..|b| - 1];
      assert init[..|a|] == a && forall r :: r in init ==> r in b;
      TotalGrows(b, |b| - 1);
      ReadingBefore(s, m, limit, taken, init, |a|);
      TotalGrows(b, |a|);
      assert false;
    }
  }

  lemma NoShorterGathering(s: string, len: int, taken: int, a: seq<nat>, b: seq<nat>)
    requires Gathered(s, len, taken, a) && Gathered(s, len, taken, b) && Positive(b)
    requires a <= b
    ensures a == b
  {
    assert b[..|a|] == a;
    if |a| < |b| {
      var init := b[..|b| - 1];
      assert init[..|a|] == a && forall r :: r in init ==> r in b;
      TotalGrows(init, |a|);
      TotalGrows(b, |a|);
      assert false;
    }
  }

  lemma EitherPrefix(a: seq<nat>, b: seq<nat>, x: seq<nat>, y: seq<nat>)
    requires a + x == b + y
    ensures if |a| <= |b| then a <= b else b <= a
    ensures a == b ==> x == y
  {
    var p := a + x;
    assert p[..|a|] == a && p[|a|..] == x;
    assert (b + y)[..|b|] == b && (b + y)[|b|..] == y;
  }

  lemma PartSplitIsUnique(
      part: string, marker: string, taken: int, h: seq<nat>, p: seq<nat>, h': seq<nat>, p': seq<nat>)
    requires PartReads(part, marker, taken, h, p) && PartReads(part, marker, taken, h', p')
    requires h + p == h' + p' && Positive(h + p)
    ensures h == h' && p == p'
  {
    hide Sought, ContentLength;
    EitherPrefix(h, h', p, p');
    assert Positive(h) && Positive(p) && Positive(h') && Positive(p') by { PositiveParts(h, p); PositiveParts(h', p'); }
    if |h| <= |h'| {
      NoShorterSearch(part, HEADER_END, MAX_HEADER_BYTES, taken, h, h');
    } else {
      NoShorterSearch(part, HEADER_END, MAX_HEADER_BYTES, taken, h', h);
    }
  }

  lemma PositiveParts(a: seq<nat>, b: seq<nat>)
    requires Positive(a + b)
    ensures Positive(a) && Positive(b)
  {
    assert forall r :: r in a ==> r in a + b;
    assert forall r :: r in b ==> r in a + b;
  }

  /** The reads of a call split among its searches in one way only, so that they decide whether a guard fires. */
  lemma SplitIsUnique(
      s: string, marker: string, taken: int, g: seq<nat>, h: seq<nat>, p: seq<nat>, g': seq<nat>, h': seq<nat>,
      p': seq<nat>)
    requires CallReads(s, marker, taken, g, h, p) && CallReads(s, marker, taken, g', h', p')
    requires g + h + p == g' + h' + p' && Positive(g + h + p)
    ensures g == g' && h == h' && p == p'
  {
    hide Sought, PartReads;
    assert g + h + p == g + (h + p) && g' + h' + p' == g' + (h' + p');
    EitherPrefix(g, g', h + p, h' + p');
    PositiveParts(g, h + p);
    PositiveParts(g', h' + p');
    if |g| <= |g'| {
      NoShorterSearch(s, marker, MAX_FRAME_BYTES, taken, g, g');
    } else {
      NoShorterSearch(s, marker, MAX_FRAME_BYTES, taken, g', g);
    }
    var r := LookedFor(s, marker, MAX_FRAME_BYTES, taken, g);
    if r.Found? {
      var begin := r.at + |marker|;
      PartSplitIsUnique(s[begin..], marker, taken + Total(g) - begin, h, p, h', p');
    }
  }

  // ------------------------------------------------------------------ the reader

  class MjpegStream {
    const boundary: string
    var isOpen: bool
    var buf: string
    /** What the peer will still send before the connection ends. */
    var net: string
    /** The sizes of the reads so far. */
    ghost var history: seq<nat>

    ghost predicate Valid()
      reads this
    {
      !isOpen ==> net == ""
    }

    ghost function Stream(): string
      reads this
    {
      buf + net
    }

    ghost function Marker(): string {
      "--" + boundary
    }

    constructor (boundary: string, net: string)
      ensures Valid() && Stream() == net && this.boundary == boundary
    {
      this.boundary := boundary;
      isOpen, buf, this.net := true, "", net;
      history := [];
    }

    /** A closed stream over preloaded bytes. */
    constructor Preloaded(boundary: string, body: string)
      ensures Valid() && Stream() == body && this.boundary == boundary && !isOpen
    {
      this.boundary := boundary;
      isOpen, buf, net := false, body, "";
      history := [];
      new;
      assert body + "" == body;
    }

    /** One read: any positive number of the bytes still to come, up to the read size, or 0 at the end. */
    method Fill() returns (n: int)
      requires Valid()
      modifies this`buf, this`net, this`history
      ensures Valid() && Stream() == old(Stream())
      ensures n <= 0 ==> net == "" && buf == old(buf)
      ensures n > 0 ==> n <= READ_BYTES && n <= |old(net)| && buf == old(buf) + old(net)[..n] && net == old(net)[n..]
      ensures history == if n > 0 then old(history) + [n] else old(history)
    {
      if !isOpen || net == "" {
        return 0;
      }
      n := *;
      if n < 1 || n > READ_BYTES || n > |net| {
        n := 1;
      }
      assert buf + net == (buf + net[..n]) + net[n..];
      buf, net := buf + net[..n], net[n..];
      history := history + [n];
    }

    /**
     Read until the marker is buffered, under the read sizes the connection happens to deliver. It is found
     where it first occurs in the whole stream; it is not found only if the stream has none, or if the
     buffer outgrows the limit first.
     */
    method Seek(m: string, limit: nat) returns (at: Option<nat>, ghost sizes: seq<nat>)
      requires Valid() && m != "" && limit > READ_BYTES
      modifies this`buf, this`net, this`history
      ensures Valid() && Stream() == old(Stream())
      ensures Possible(|old(net)|, sizes) && history == old(history) + sizes && |buf| == |old(buf)| + Total(sizes)
      ensures Conducted(old(Stream()), m, limit, |old(buf)|, sizes) && Positive(sizes)
      ensures at.None? && Sought(old(Stream()), m, limit, |old(buf)|, sizes) != TooLarge ==> First(Stream(), m).None?
      ensures var r := Sought(old(Stream()), m, limit, |old(buf)|, sizes);
              if at.Some? then r == Found(at.value) else r == TooLarge || r == Reading(|Stream()|)
      ensures at.Some? ==> at == First(Stream(), m) && at.value + |m| <= |buf|
      ensures at.None? ==> First(Stream(), m).None? || !EndsWithin(Stream(), m, limit)
    {
      hide First, Sought, Ongoing, EndsWithin;
      at := First(buf, m);
      sizes := [];
      ghost var s, taken := Stream(), |buf|;
      assert s[..|buf|] == buf;
      NoReads(s, m, limit, taken);
      OngoingFirst(s, m, limit, taken);
      while at.None?
        invariant Valid() && Stream() == s && s[..|buf|] == buf
        invariant at == First(buf, m)
        invariant Possible(|old(net)|, sizes) && taken + Total(sizes) == |buf| && history == old(history) + sizes
        invariant Sought(s, m, limit, taken, sizes) == Look(s, m, |buf|)
        invariant Ongoing(s, m, limit, taken, sizes)
        decreases |net|
      {
        var n := Fill();
        if n <= 0 {
          assert s == buf;
          SeenInPrefix(s, m, |s|);
          return;
        }
        assert s[..|buf|] == buf;
        OneMoreRead(s, m, limit, taken, sizes, n);
        OngoingNext(s, m, limit, taken, sizes, n);
        sizes := sizes + [n];
        if |buf| > limit {
          TooLargeNeeds(s, m, limit, taken, sizes);
          NotWithin(s, m, limit);
          return;
        }
        at := First(buf, m);
      }
      SeenInPrefix(s, m, |buf|);
    }

    /** Drop the first `n` buffered bytes. */
    method Erase(n: nat)
      requires Valid() && n <= |buf|
      modifies this`buf
      ensures Valid() && n <= |old(Stream())| && Stream() == old(Stream())[n..] && buf == old(buf)[n..]
    {
      assert (buf + net)[n..] == buf[n..] + net;
      buf := buf[n..];
    }

    /**
     The next frame. It is found exactly when the whole-stream parser finds one and none of the reads of this
     call trips a size guard; it is then that parser's frame, and exactly what follows that frame is left.
     */
    method NextFrame()
      returns (ok: bool, out: string, ghost gap: seq<nat>, ghost headers: seq<nat>, ghost payload: seq<nat>)
      requires Valid()
      modifies this`buf, this`net, this`history
      ensures Valid() && history == old(history) + gap + headers + payload
      ensures ok <==> NextOf(old(Stream()), Marker()).Some?
                      && !Tripped(old(Stream()), Marker(), |old(buf)|, gap, headers, payload)
      ensures CallReads(old(Stream()), Marker(), |old(buf)|, gap, headers, payload)
      ensures Positive(gap + headers + payload)
      ensures ok ==> NextOf(old(Stream()), Marker()) == Some(Frame(out, Stream()))
      ensures !ok ==> NextOf(old(Stream()), Marker()).None? || !WithinLimits(old(Stream()), Marker())
    {
      hide FirstFrom, OccursAt, ContentLength, Payload, Sought, TrippedPart, PartReads;
      out, gap, headers, payload := "", [], [], [];
      if !isOpen && buf == "" {
        NothingInNothing(Marker());
        assert Stream() == "" && ""[..0] == "";
        NoReads("", Marker(), MAX_FRAME_BYTES, 0);
        return false, "", [], [], [];
      }
      var dashBoundary := "--" + boundary;
      var b;
      b, gap := Seek(dashBoundary, MAX_FRAME_BYTES);
      if b.None? {
        assert gap + [] + [] == gap;
        return false, "", gap, [], [];
      }
      Erase(b.value + |dashBoundary|);
      ok, out, headers, payload := ReadPart();
      assert gap + headers + payload == gap + (headers + payload);
    }

    /** Steps 2 and 3: the part's headers, then its payload. */
    method ReadPart() returns (ok: bool, out: string, ghost headers: seq<nat>, ghost payload: seq<nat>)
      requires Valid()
      modifies this`buf, this`net, this`history
      ensures Valid() && history == old(history) + headers + payload
      ensures ok <==> PartAfterMarker(old(Stream()), Marker()).Some?
                      && !TrippedPart(old(Stream()), Marker(), |old(buf)|, headers, payload)
      ensures PartReads(old(Stream()), Marker(), |old(buf)|, headers, payload) && Positive(headers + payload)
      ensures ok ==> PartAfterMarker(old(Stream()), Marker()) == Some(Frame(out, Stream()))
      ensures !ok ==>
                || PartAfterMarker(old(Stream()), Marker()).None?
                || !EndsWithin(old(Stream()), HEADER_END, MAX_HEADER_BYTES)
                || (First(old(Stream()), HEADER_END).Some?
                    && First(old(Stream()), HEADER_END).value + 4 <= |old(Stream())|
                    && ContentLength(old(Stream())[..First(old(Stream()), HEADER_END).value]) <= 0
                    && !EndsWithin(old(Stream())[First(old(Stream()), HEADER_END).value + 4..], Marker(),
                        MAX_FRAME_BYTES))
    {
      hide FirstFrom, OccursAt, ContentLength, Payload, Sought;
      out, payload := "", [];
      var h;
      h, headers := Seek(HEADER_END, MAX_HEADER_BYTES);
      if h.None? {
        return false, "", headers, [];
      }
      assert Stream()[..h.value] == buf[..h.value];
      var partHeaders := buf[..h.value];
      var len := ParseContentLength(partHeaders);
      Erase(h.value + 4);
      if len > 0 {
        ok, out, payload := ReadMeasured(len);
      } else {
        ok, out, payload := ReadToBoundary(len);
      }
    }

    /** Step 3a: exactly `len` bytes. */
    method ReadMeasured(len: int) returns (ok: bool, out: string, ghost sizes: seq<nat>)
      requires Valid() && len > 0
      modifies this`buf, this`net, this`history
      ensures Valid() && history == old(history) + sizes
      ensures Gathered(old(Stream()), len, |old(buf)|, sizes) && Positive(sizes)
      ensures ok ==> Payload(old(Stream()), len, Marker()) == Some(Frame(out, Stream()))
      ensures !ok ==> Payload(old(Stream()), len, Marker()).None?
    {
      out, sizes := "", [];
      while |buf| < len
        invariant Valid() && Stream() == old(Stream()) && history == old(history) + sizes
        invariant |buf| == |old(buf)| + Total(sizes) && Positive(sizes)
        invariant sizes != [] ==> |old(buf)| + Total(sizes[..|sizes| - 1]) < len
        decreases |net|
      {
        var n := Fill();
        if n <= 0 {
          return false, "", sizes;
        }
        assert (sizes + [n])[..|sizes|] == sizes;
        sizes := sizes + [n];
      }
      assert Stream()[..len] == buf[..len];
      out := buf[..len];
      Erase(len);
      ok := true;
    }

    /** Step 3b: up to the next boundary, without the line ends before it. */
    method ReadToBoundary(ghost len: int) returns (ok: bool, out: string, ghost sizes: seq<nat>)
      requires Valid() && len <= 0
      modifies this`buf, this`net, this`history
      ensures Valid() && history == old(history) + sizes
      ensures ok <==> Payload(old(Stream()), len, Marker()).Some?
                      && LookedFor(old(Stream()), Marker(), MAX_FRAME_BYTES, |old(buf)|, sizes) != TooLarge
      ensures Conducted(old(Stream()), Marker(), MAX_FRAME_BYTES, |old(buf)|, sizes) && Positive(sizes)
      ensures ok ==> Payload(old(Stream()), len, Marker()) == Some(Frame(out, Stream()))
      ensures !ok ==>
                Payload(old(Stream()), len, Marker()).None? || !EndsWithin(old(Stream()), Marker(), MAX_FRAME_BYTES)
    {
      hide FirstFrom, OccursAt, Sought;
      out := "";
      var dashBoundary := "--" + boundary;
      var next;
      next, sizes := Seek(dashBoundary, MAX_FRAME_BYTES);
      if next.None? {
        return false, "", sizes;
      }
      assert Stream()[..next.value] == buf[..next.value];
      out := buf[..next.value];
      ghost var whole := out;
      while out != "" && IsLineEnd(out[|out| - 1])
        invariant Trimmed(out) == Trimmed(whole)
        decreases |out|
      {
        out := out[..|out| - 1];
      }
      Erase(next.value);
      ok := true;
    }
  }

  lemma NothingInNothing(m: string)
    requires m != ""
    ensures First("", m).None?
  {
  }

  /** The next `n` frames are there, each clear of the size guards. */
  ghost predicate Clear(stream: string, marker: string, n: nat) {
    n == 0 || (WithinLimits(stream, marker) && NextOf(stream, marker).Some?
               && Clear(NextOf(stream, marker).value.rest, marker, n - 1))
  }

  /** What follows the first `n` frames. */
  function AfterFrames(stream: string, marker: string, n: nat): string {
    if n == 0 then stream
    else
      match NextOf(stream, marker)
      case None => stream
      case Some(f) => AfterFrames(f.rest, marker, n - 1)
  }

  /**
   Successive calls return the successive frames of the whole stream, whatever the read sizes: at least as
   many as are clear of the size guards.
   */
  method ReadFrames(s: MjpegStream, n: nat) returns (ok: bool, frames: seq<string>)
    requires s.Valid()
    modifies s`buf, s`net, s`history
    ensures s.Valid()
    ensures ok <==> |frames| == n
    ensures ok ==> frames == FramesOf(old(s.Stream()), s.Marker(), n)
    ensures ok ==> s.Stream() == AfterFrames(old(s.Stream()), s.Marker(), n)
    ensures frames <= FramesOf(old(s.Stream()), s.Marker(), n)
    ensures forall k: nat | k <= n && Clear(old(s.Stream()), s.Marker(), k) :: |frames| >= k
    decreases n
  {
    hide NextOf, WithinLimits;
    if n == 0 {
      return true, [];
    }
    var got, frame, _, _, _ := s.NextFrame();
    if !got {
      return false, [];
    }
    var rest;
    ok, rest := ReadFrames(s, n - 1);
    frames := [frame] + rest;
    forall k: nat | k <= n && Clear(old(s.Stream()), s.Marker(), k) ensures |frames| >= k {
      if k > 0 {
        assert Clear(NextOf(old(s.Stream()), s.Marker()).value.rest, s.Marker(), k - 1);
      }
    }
  }

  // ------------------------------------------------------------------ a camera's stream

  /** The gap and the headers are clear of the size guards, whatever the size of the image. */
  predicate Roomy(p: Part, marker: string) {
    |p.gap| + |marker| <= 8_380_417 && |p.headers| <= 57_341
  }

  lemma PartIsWithinLimits(p: Part, marker: string, rest: string)
    requires ProperPart(p, marker) && Roomy(p, marker)
    ensures WithinLimits(PartText(p, marker) + rest, marker)
  {
    hide First, ContentLength;
    var part := (p.headers + HEADER_END) + (p.image + rest);
    var stream := (p.gap + marker) + part;
    assert PartText(p, marker) + rest == stream;
    FirstIsStable(p.gap + marker, part, marker);
    assert stream[|p.gap| + |marker|..] == part;
    FirstIsStable(p.headers + HEADER_END, p.image + rest, HEADER_END);
    assert part[..|p.headers|] == p.headers;
  }

  lemma {:induction false} PartsAreClear(parts: seq<Part>, marker: string, rest: string)
    requires forall p :: p in parts ==> ProperPart(p, marker) && Roomy(p, marker)
    ensures Clear(StreamText(parts, marker) + rest, marker, |parts|)
    ensures AfterFrames(StreamText(parts, marker) + rest, marker, |parts|) == rest
  {
    hide ProperPart, NextOf, PartText, Roomy, WithinLimits;
    if parts != [] {
      var p, tail := parts[0], StreamText(parts[1..], marker) + rest;
      assert StreamText(parts, marker) + rest == PartText(p, marker) + tail;
      PartIsExact(p, marker, tail);
      PartIsWithinLimits(p, marker, tail);
      PartsAreClear(parts[1..], marker, rest);
    } else {
      assert StreamText(parts, marker) + rest == rest;
    }
  }

  /**
   The reader on a camera's stream: parts with their lengths are read as exactly their images, however the
   stream is cut into reads and whatever the images contain, and what follows them is left.
   */
  method ReadParts(s: MjpegStream, n: nat, ghost parts: seq<Part>, ghost rest: string)
      returns (ok: bool, frames: seq<string>)
    requires s.Valid() && n == |parts| && s.Stream() == StreamText(parts, "--" + s.boundary) + rest
    requires forall p :: p in parts ==> ProperPart(p, "--" + s.boundary) && Roomy(p, "--" + s.boundary)
    modifies s`buf, s`net, s`history
    ensures s.Valid() && ok && frames == Images(parts) && s.Stream() == rest
  {
    hide Clear, AfterFrames, FramesOf, StreamText, ProperPart, Roomy;
    PartsAreClear(parts, s.Marker(), rest);
    StreamIsExact(parts, s.Marker(), rest);
    ok, frames := ReadFrames(s, n);
  }
}
