/**
 The NFS probe's XDR reader (optional/nfs/NfsProbe.cpp): words and padded strings behind a byte cursor,
 the RPC reply header, and the export list of the MOUNT protocol. A cursor past the end means overrun.
 */
module NfsExports {
  import opened Bytes

  const REPLY: uint32 := 1
  const ACCEPTED: uint32 := 0
  const SUCCESS: uint32 := 0

  datatype Word = Word(value: uint32, off: nat)
  datatype Text = Text(value: bytes, off: nat)

  function RoundUp(n: nat): (r: nat)
    ensures n <= r < n + 4 && r % 4 == 0
    ensures n % 4 == 0 ==> r == n
  {
    (n + 3) / 4 * 4
  }

  // ------------------------------------------------------------------ writing

  /** A counted string, as PutString writes it behind `at` bytes. */
  function StringWire(s: bytes, at: nat): bytes {
    BE32(|s| % TWO_32) + s + Zeros(RoundUp(at + |s|) - (at + |s|))
  }

  lemma NoZeros(b: bytes)
    ensures b == b + Zeros(0)
  {
  }

  lemma OneMoreZero(n: nat)
    ensures Zeros(n) + [0] == Zeros(n + 1)
  {
  }

  lemma RoundUpFrom(at: nat, n: nat)
    requires at % 4 == 0
    ensures RoundUp(at + n) == at + RoundUp(n)
  {
  }

  lemma RoundUpIs(n: nat, r: nat)
    requires n <= r <= RoundUp(n) && r % 4 == 0
    ensures r == RoundUp(n)
  {
  }

  /** Four octets of length, the string, and up to three zeros that bring the whole buffer to a word boundary. */
  lemma StringOctets(s: bytes, at: nat)
    requires |s| < TWO_32
    ensures exists zeros: bytes ::
              && StringWire(s, at) == BE32(|s|) + s + zeros && (forall z :: z in zeros ==> z == 0)
              && |zeros| < 4 && (at + |StringWire(s, at)|) % 4 == 0
  {
    hide BE32;
    var zeros := Zeros(RoundUp(at + |s|) - (at + |s|));
    assert StringWire(s, at) == BE32(|s|) + s + zeros;
    RoundUpFrom(4, at + |s|);
  }

  method PutString(b: bytes, s: bytes) returns (r: bytes)
    ensures r == b + StringWire(s, |b|)
  {
    hide BE32, RoundUp, Zeros;
    r := b + BE32(|s| % TWO_32);
    r := r + s;
    ghost var unpadded := r;
    NoZeros(unpadded);
    while |r| % 4 != 0
      invariant |unpadded| <= |r| <= RoundUp(|unpadded|)
      invariant r == unpadded + Zeros(|r| - |unpadded|)
      decreases RoundUp(|unpadded|) - |r|
    {
      OneMoreZero(|r| - |unpadded|);
      r := r + [0];
    }
    RoundUpIs(|unpadded|, |r|);
    RoundUpFrom(4, |b| + |s|);
    ghost var zeros := Zeros(|r| - |unpadded|);
    assert b + BE32(|s| % TWO_32) + s + zeros == b + (BE32(|s| % TWO_32) + s + zeros);
  }

  // ------------------------------------------------------------------ reading

  function GetU32(b: bytes, off: nat): Word {
    if off + 4 > |b| then Word(0, |b| + 1) else Word(GetBE32(b, off), off + 4)
  }

  function StringAt(b: bytes, off: nat): Text {
    var len := GetU32(b, off);
    if len.off + len.value > |b| then Text([], |b| + 1)
    else Text(b[len.off..len.off + len.value], RoundUp(len.off + len.value))
  }

  method SkipPadding(off: nat) returns (r: nat)
    ensures r == RoundUp(off)
  {
    r := off;
    while r % 4 != 0
      invariant off <= r <= RoundUp(off)
      decreases RoundUp(off) - r
    {
      r := r + 1;
    }
  }

  method GetString(b: bytes, off: nat) returns (r: Text)
    ensures r == StringAt(b, off)
  {
    var len := GetU32(b, off);
    if len.off + len.value > |b| {
      return Text([], |b| + 1);
    }
    var s := b[len.off..len.off + len.value];
    var next := SkipPadding(len.off + len.value);
    return Text(s, next);
  }

  // ------------------------------------------------------------------ reply header

  /** A complete header of an accepted, successful reply; the verifier may have any length. */
  predicate AcceptedHeader(b: bytes) {
    && |b| >= 20 && GetBE32(b, 4) == REPLY && GetBE32(b, 8) == ACCEPTED
    && HeaderEnd(b) <= |b| && GetBE32(b, HeaderEnd(b) - 4) == SUCCESS
  }

  function HeaderEnd(b: bytes): (r: nat)
    requires |b| >= 20
    ensures r >= 24
  {
    RoundUp(20 + GetBE32(b, 16)) + 4
  }

  /** Accepts exactly the complete accepted headers, and leaves the cursor behind them. */
  method ParseReplyHeader(b: bytes) returns (ok: bool, off: nat)
    ensures ok <==> AcceptedHeader(b)
    ensures ok ==> off == HeaderEnd(b)
  {
    hide GetBE32, RoundUp;
    var w := GetU32(b, 0);
    w := GetU32(b, w.off);
    if w.value != REPLY {
      return false, w.off;
    }
    w := GetU32(b, w.off);
    if w.value != ACCEPTED {
      return false, w.off;
    }
    w := GetU32(b, w.off);
    w := GetU32(b, w.off);
    off := SkipPadding(w.off + w.value);
    w := GetU32(b, off);
    off := w.off;
    if w.value != SUCCESS {
      return false, off;
    }
    return off <= |b|, off;
  }

  // ------------------------------------------------------------------ export list

  /** The cursor behind a groups list. */
  function GroupsEnd(b: bytes, off: nat): (r: nat)
    ensures r >= off
    decreases |b| + 1 - off
  {
    if off > |b| then off
    else
      var follows := GetU32(b, off);
      if follows.value == 0 then follows.off else GroupsEnd(b, StringAt(b, follows.off).off)
  }

  function Named(dir: bytes): seq<bytes> {
    if dir == [] then [] else [dir]
  }

  /** The directories listed at `off`, read as far as the buffer reaches. */
  function ExportsAt(b: bytes, off: nat): seq<bytes>
    decreases |b| + 1 - off
  {
    if off > |b| then []
    else
      var follows := GetU32(b, off);
      if follows.value == 0 then []
      else
        var dir := StringAt(b, follows.off);
        if dir.off > |b| then [] else Named(dir.value) + ExportsAt(b, GroupsEnd(b, dir.off))
  }

  lemma ExportsStep(b: bytes, off: nat)
    ensures ExportsAt(b, off) ==
            if off > |b| || GetU32(b, off).value == 0 then []
            else
              var dir := StringAt(b, GetU32(b, off).off);
              if dir.off > |b| then [] else Named(dir.value) + ExportsAt(b, GroupsEnd(b, dir.off))
  {
  }

  method ParseExportList(b: bytes, start: nat) returns (out: seq<bytes>)
    ensures out == ExportsAt(b, start)
  {
    hide GetBE32, RoundUp, ExportsAt;
    out := [];
    var off := start;
    ghost var all := ExportsAt(b, start);
    while off <= |b|
      invariant out + ExportsAt(b, off) == all
      decreases |b| + 1 - off
    {
      ExportsStep(b, off);
      var follows := GetU32(b, off);
      if follows.value == 0 {
        assert out + [] == out;
        return;
      }
      var dir := GetString(b, follows.off);
      if dir.off > |b| {
        assert out + [] == out;
        return;
      }
      ghost var rest := ExportsAt(b, GroupsEnd(b, dir.off));
      assert out + (Named(dir.value) + rest) == (out + Named(dir.value)) + rest;
      if dir.value != [] {
        out := out + [dir.value];
      } else {
        assert out + [] == out;
      }
      ghost var behind := GroupsEnd(b, dir.off);
      off := dir.off;
      var done := false;
      while off <= |b| && !done
        invariant off >= dir.off && behind == if done then off else GroupsEnd(b, off)
        decreases |b| + 1 - off, !done
      {
        var more := GetU32(b, off);
        off := more.off;
        if more.value == 0 {
          done := true;
        } else {
          var name := GetString(b, off);
          off := name.off;
        }
      }
      assert behind == off;
    }
    ExportsStep(b, off);
    assert out + [] == out;
  }

  // ------------------------------------------------------------------ the encoding

  datatype Export = Export(dir: bytes, groups: seq<bytes>)

  /** A counted string on a word boundary. */
  function XdrString(s: bytes): (r: bytes)
    ensures |r| == 4 + RoundUp(|s|)
  {
    StringWire(s, 0)
  }

  function XdrGroups(groups: seq<bytes>): bytes {
    if groups == [] then BE32(0) else BE32(1) + XdrString(groups[0]) + XdrGroups(groups[1..])
  }

  function XdrExports(list: seq<Export>): bytes {
    if list == [] then BE32(0)
    else BE32(1) + XdrString(list[0].dir) + XdrGroups(list[0].groups) + XdrExports(list[1..])
  }

  predicate Encodable(e: Export) {
    |e.dir| < TWO_32 && forall g :: g in e.groups ==> |g| < TWO_32
  }

  /** `x` stands in `b` at the word boundary `off`. */
  predicate StandsAt(b: bytes, off: nat, x: bytes) {
    off % 4 == 0 && off + |x| <= |b| && b[off..off + |x|] == x
  }

  lemma StandsParts(b: bytes, off: nat, x: bytes, y: bytes)
    requires StandsAt(b, off, x + y) && |x| % 4 == 0
    ensures StandsAt(b, off, x) && StandsAt(b, off + |x|, y)
  {
    SliceOfSlice(b, off, off + |x + y|, 0, |x|);
    SliceOfSlice(b, off, off + |x + y|, |x|, |x + y|);
    assert (x + y)[..|x|] == x && (x + y)[|x|..] == y;
  }

  lemma WordReads(b: bytes, off: nat, v: uint32)
    requires StandsAt(b, off, BE32(v))
    ensures GetU32(b, off) == Word(v, off + 4)
  {
    ReadBE32(v, b, off);
  }

  lemma StringReads(b: bytes, off: nat, s: bytes)
    requires StandsAt(b, off, XdrString(s)) && |s| < TWO_32
    ensures StringAt(b, off) == Text(s, off + |XdrString(s)|)
  {
    hide BE32, GetBE32, RoundUp;
    var pad := Zeros(RoundUp(|s|) - |s|);
    assert XdrString(s) == BE32(|s|) + (s + pad);
    StandsParts(b, off, BE32(|s|), s + pad);
    WordReads(b, off, |s|);
    SliceOfSlice(b, off + 4, off + 4 + |s + pad|, 0, |s|);
    assert (s + pad)[..|s|] == s;
    RoundUpFrom(off + 4, |s|);
  }

  /** One group is passed over, whatever non-zero word announces it. */
  lemma GroupStep(b: bytes, off: nat, mark: uint32, s: bytes, rest: bytes)
    requires StandsAt(b, off, BE32(mark) + (XdrString(s) + rest)) && |s| < TWO_32 && mark != 0
    ensures StandsAt(b, off + 4 + |XdrString(s)|, rest)
    ensures GroupsEnd(b, off) == GroupsEnd(b, off + 4 + |XdrString(s)|)
  {
    hide BE32, StandsAt, RoundUp, GetU32, StringAt, XdrString;
    var x := XdrString(s);
    Within(b, off, BE32(mark) + (x + rest));
    StandsParts(b, off, BE32(mark), x + rest);
    WordReads(b, off, mark);
    StandsParts(b, off + 4, x, rest);
    StringReads(b, off + 4, s);
  }

  lemma {:induction false} GroupsRead(b: bytes, off: nat, groups: seq<bytes>)
    requires StandsAt(b, off, XdrGroups(groups)) && forall g :: g in groups ==> |g| < TWO_32
    ensures GroupsEnd(b, off) == off + |XdrGroups(groups)|
    decreases |groups|
  {
    hide BE32, StandsAt, RoundUp, GetU32, StringAt, XdrString;
    if groups == [] {
      WordReads(b, off, 0);
      Within(b, off, BE32(0));
    } else {
      hide GroupsEnd;
      var s, rest := XdrString(groups[0]), XdrGroups(groups[1..]);
      assert XdrGroups(groups) == BE32(1) + (s + rest);
      GroupStep(b, off, 1, groups[0], rest);
      GroupsRead(b, off + 4 + |s|, groups[1..]);
    }
  }

  lemma Within(b: bytes, off: nat, x: bytes)
    requires StandsAt(b, off, x)
    ensures off + |x| <= |b|
  {
  }

  function Dirs(list: seq<Export>): seq<bytes> {
    if list == [] then [] else Named(list[0].dir) + Dirs(list[1..])
  }

  /** One export is read, whatever non-zero word announces it, and its groups passed over. */
  lemma ExportStep(b: bytes, off: nat, mark: uint32, e: Export, rest: bytes)
    requires StandsAt(b, off, BE32(mark) + (XdrString(e.dir) + (XdrGroups(e.groups) + rest)))
    requires Encodable(e) && mark != 0
    ensures var next := off + 4 + |XdrString(e.dir)| + |XdrGroups(e.groups)|;
            StandsAt(b, next, rest) && ExportsAt(b, off) == Named(e.dir) + ExportsAt(b, next)
  {
    hide BE32, StandsAt, RoundUp, GetU32, StringAt, XdrString, XdrGroups, GroupsEnd;
    var s, groups := XdrString(e.dir), XdrGroups(e.groups);
    Within(b, off, BE32(mark) + (s + (groups + rest)));
    StandsParts(b, off, BE32(mark), s + (groups + rest));
    WordReads(b, off, mark);
    StandsParts(b, off + 4, s, groups + rest);
    StringReads(b, off + 4, e.dir);
    Within(b, off + 4, s);
    GroupsPart(b, off + 4 + |s|, e.groups, rest);
  }

  /**
   An encoded export list at a word boundary, with anything around it, is read as exactly its non-empty
   directories, in order, whatever the groups are.
   */
  lemma {:induction false} ExportsRead(b: bytes, off: nat, list: seq<Export>)
    requires StandsAt(b, off, XdrExports(list)) && forall e :: e in list ==> Encodable(e)
    ensures ExportsAt(b, off) == Dirs(list)
    decreases |list|
  {
    hide BE32, StandsAt, RoundUp, GetU32, StringAt, XdrString, XdrGroups, GroupsEnd, Encodable;
    if list == [] {
      WordReads(b, off, 0);
    } else {
      hide ExportsAt;
      var e := list[0];
      assert e in list;
      var s, groups, rest := XdrString(e.dir), XdrGroups(e.groups), XdrExports(list[1..]);
      assert XdrExports(list) == BE32(1) + (s + (groups + rest));
      ExportStep(b, off, 1, e, rest);
      ExportsRead(b, off + 4 + |s| + |groups|, list[1..]);
    }
  }

  lemma GroupsPart(b: bytes, off: nat, groups: seq<bytes>, rest: bytes)
    requires StandsAt(b, off, XdrGroups(groups) + rest) && forall g :: g in groups ==> |g| < TWO_32
    ensures GroupsEnd(b, off) == off + |XdrGroups(groups)| && StandsAt(b, off + |XdrGroups(groups)|, rest)
  {
    hide StandsAt, XdrGroups, GroupsEnd;
    GroupsAligned(groups);
    StandsParts(b, off, XdrGroups(groups), rest);
    GroupsRead(b, off, groups);
  }

  lemma {:induction false} GroupsAligned(groups: seq<bytes>)
    ensures |XdrGroups(groups)| % 4 == 0
  {
    hide BE32, XdrString;
    if groups != [] {
      GroupsAligned(groups[1..]);
    }
  }

  /** Without empty directories nothing is dropped. */
  lemma {:induction false} NothingDropped(list: seq<Export>)
    ensures |Dirs(list)| == |list| <==> forall e :: e in list ==> e.dir != []
    ensures |Dirs(list)| == |list| ==> Dirs(list) == seq(|list|, i requires 0 <= i < |list| => list[i].dir)
    ensures |Dirs(list)| <= |list|
  {
    if list != [] {
      NothingDropped(list[1..]);
      assert list == [list[0]] + list[1..];
    }
  }

  // ------------------------------------------------------------------ the whole reply

  /** A header as any server may send it: a message type, a reply status and an accept status among its words. */
  function Header(xid: uint32, kind: uint32, status: uint32, flavor: uint32, verifier: bytes, accept: uint32): bytes {
    BE32(xid) + (BE32(kind) + (BE32(status) + (BE32(flavor) + (XdrString(verifier) + BE32(accept)))))
  }

  function ReplyHeader(xid: uint32, flavor: uint32, verifier: bytes): bytes {
    Header(xid, 1, 0, flavor, verifier, 0)
  }

  /** A successful reply yields its exports, whatever its id and verifier. */
  lemma ReplyLists(xid: uint32, flavor: uint32, verifier: bytes, list: seq<Export>)
    requires |verifier| < TWO_32 && forall e :: e in list ==> Encodable(e)
    ensures var b := ReplyHeader(xid, flavor, verifier) + XdrExports(list);
            && AcceptedHeader(b) && HeaderEnd(b) == |ReplyHeader(xid, flavor, verifier)|
            && ExportsAt(b, HeaderEnd(b)) == Dirs(list)
  {
    hide BE32, GetBE32, RoundUp, XdrExports, Encodable, ExportsAt, Dirs, Header, XdrString, HeaderEnd;
    var header, list' := ReplyHeader(xid, flavor, verifier), XdrExports(list);
    var b := header + list';
    assert b[0..|b|] == b;
    HeaderWords(b, xid, 1, 0, flavor, verifier, 0, list');
    StandsParts(b, 0, header, list');
    ExportsRead(b, |header|, list);
  }

  lemma HeaderWords(
      b: bytes, xid: uint32, kind: uint32, status: uint32, flavor: uint32, verifier: bytes, accept: uint32,
      rest: bytes)
    requires |verifier| < TWO_32 && b == Header(xid, kind, status, flavor, verifier, accept) + rest
    ensures var n := |Header(xid, kind, status, flavor, verifier, accept)|;
            && n % 4 == 0 && 24 <= n <= |b| && HeaderEnd(b) == n
            && GetBE32(b, 4) == kind && GetBE32(b, 8) == status && GetBE32(b, n - 4) == accept
  {
    hide BE32, GetBE32, RoundUp, StandsAt, StringWire, XdrString;
    var v := XdrString(verifier);
    var w5 := v + BE32(accept);
    var w4 := BE32(flavor) + w5;
    var w3 := BE32(status) + w4;
    var w2 := BE32(kind) + w3;
    var header := BE32(xid) + w2;
    assert header == Header(xid, kind, status, flavor, verifier, accept);
    assert StandsAt(b, 0, header) by { StandsFirst(header, rest); }
    StandsParts(b, 0, BE32(xid), w2);
    StandsParts(b, 4, BE32(kind), w3);
    WordIs(b, 4, kind);
    StandsParts(b, 8, BE32(status), w4);
    WordIs(b, 8, status);
    StandsParts(b, 12, BE32(flavor), w5);
    StandsParts(b, 16, v, BE32(accept));
    VerifierLength(b, verifier);
    WordIs(b, 16 + |v|, accept);
  }

  /** A header is accepted exactly when it says: a reply (1), accepted (0), successful (0). */
  lemma HeaderAccepted(
      xid: uint32, kind: uint32, status: uint32, flavor: uint32, verifier: bytes, accept: uint32, rest: bytes)
    requires |verifier| < TWO_32
    ensures AcceptedHeader(Header(xid, kind, status, flavor, verifier, accept) + rest)
            <==> kind == 1 && status == 0 && accept == 0
  {
    hide BE32, GetBE32, RoundUp, XdrString, Header, HeaderEnd;
    HeaderWords(Header(xid, kind, status, flavor, verifier, accept) + rest, xid, kind, status, flavor, verifier,
        accept, rest);
  }

  /** A header cut short anywhere is refused. */
  lemma CutHeaderRefused(
      xid: uint32, kind: uint32, status: uint32, flavor: uint32, verifier: bytes, accept: uint32, n: nat)
    requires |verifier| < TWO_32 && n < |Header(xid, kind, status, flavor, verifier, accept)|
    ensures !AcceptedHeader(Header(xid, kind, status, flavor, verifier, accept)[..n])
  {
    hide BE32, RoundUp, XdrString, Header;
    var b := Header(xid, kind, status, flavor, verifier, accept);
    assert b + [] == b;
    HeaderWords(b, xid, kind, status, flavor, verifier, accept, []);
    if n >= 20 {
      CutEnd(b, n);
    }
  }

  lemma CutEnd(b: bytes, n: nat)
    requires 20 <= n <= |b|
    ensures HeaderEnd(b[..n]) == HeaderEnd(b)
  {
    hide GetBE32, RoundUp;
    GetInSlice(b, 0, n, 16);
    assert b[0..n] == b[..n];
  }

  lemma StandsFirst(x: bytes, rest: bytes)
    ensures StandsAt(x + rest, 0, x)
  {
  }

  lemma WordIs(b: bytes, off: nat, v: uint32)
    requires StandsAt(b, off, BE32(v))
    ensures off + 4 <= |b| && GetBE32(b, off) == v
  {
    ReadBE32(v, b, off);
  }

  lemma VerifierLength(b: bytes, verifier: bytes)
    requires StandsAt(b, 16, XdrString(verifier)) && |verifier| < TWO_32
    ensures |b| >= 20 && GetBE32(b, 16) == |verifier| && HeaderEnd(b) == 20 + |XdrString(verifier)|
  {
    hide BE32, GetBE32;
    assert XdrString(verifier) == BE32(|verifier|) + (verifier + Zeros(RoundUp(|verifier|) - |verifier|));
    StandsParts(b, 16, BE32(|verifier|), verifier + Zeros(RoundUp(|verifier|) - |verifier|));
    WordIs(b, 16, |verifier|);
  }

  // ------------------------------------------------------------------ truncation

  lemma TruncatedWord(b: bytes, n: nat, off: nat)
    requires n <= |b|
    ensures GetU32(b[..n], off) == if off + 4 > n then Word(0, n + 1) else GetU32(b, off)
  {
    GetInSlice(b, 0, n, off);
    assert b[0..n] == b[..n];
  }

  lemma TruncatedString(b: bytes, n: nat, off: nat)
    requires n <= |b|
    ensures StringAt(b[..n], off).off > n || StringAt(b[..n], off) == StringAt(b, off)
  {
    hide RoundUp, GetU32;
    TruncatedWord(b, n, off);
    var len := GetU32(b[..n], off);
    if len.off + len.value <= n {
      assert GetU32(b, off) == len by { WordWithin(b[..n], off); }
      assert b[..n][len.off..len.off + len.value] == b[len.off..len.off + len.value];
    }
  }

  lemma WordWithin(b: bytes, off: nat)
    ensures off + 4 > |b| <==> GetU32(b, off).off > |b|
  {
  }

  lemma {:induction false} TruncatedGroups(b: bytes, n: nat, off: nat)
    requires n <= |b|
    ensures GroupsEnd(b[..n], off) > n || GroupsEnd(b[..n], off) == GroupsEnd(b, off)
    decreases n + 1 - off
  {
    hide StringAt;
    if off <= n {
      TruncatedWord(b, n, off);
      var follows := GetU32(b[..n], off);
      if follows.value != 0 {
        TruncatedString(b, n, follows.off);
        StringMoves(b[..n], follows.off);
        TruncatedGroups(b, n, StringAt(b[..n], follows.off).off);
      }
    }
  }

  lemma StringMoves(b: bytes, off: nat)
    requires off <= |b|
    ensures StringAt(b, off).off > off
  {
  }

  /** A reply cut short anywhere loses directories from the end, and invents none. */
  lemma {:induction false} TruncatedExports(b: bytes, n: nat, off: nat)
    requires n <= |b|
    ensures ExportsAt(b[..n], off) <= ExportsAt(b, off)
    decreases n + 1 - off
  {
    hide StringAt, GroupsEnd, Named;
    if off <= n {
      TruncatedWord(b, n, off);
      var follows := GetU32(b[..n], off);
      if follows.value != 0 {
        TruncatedString(b, n, follows.off);
        StringMoves(b[..n], follows.off);
        var dir := StringAt(b[..n], follows.off);
        if dir.off <= n {
          TruncatedGroups(b, n, dir.off);
          var next := GroupsEnd(b[..n], dir.off);
          if next <= n {
            TruncatedExports(b, n, next);
          }
        }
      }
    }
  }

  /** An export without a directory name is dropped. */
  lemma EmptyDirectoryIsDropped(groups: seq<bytes>, dir: bytes)
    requires dir != [] && |dir| < TWO_32 && forall g :: g in groups ==> |g| < TWO_32
    ensures ExportsAt(XdrExports([Export([], groups), Export(dir, [])]), 0) == [dir]
  {
    hide XdrExports, ExportsAt;
    var first, last := Export([], groups), Export(dir, []);
    var list := [first, last];
    var b := XdrExports(list);
    assert b[0..|b|] == b;
    assert list[1..] == [last] && [last][1..] == [];
    ExportsRead(b, 0, list);
    assert Dirs([]) == [] && Dirs([last]) == [dir] + [];
  }
}
