/**
 The DMAP reader of the DAAP client (optional/daap/DaapClient.cpp): searching a buffer of tagged,
 length-prefixed elements for a code, and collecting the tracks of a listing, both without a table of
 which codes are containers.
 */
module Dmap {
  import opened Bytes
  import opened Options

  type Code = c: bytes | |c| == 4 witness [0x61, 0x61, 0x61, 0x61]

  const MLIT: Code := [0x6d, 0x6c, 0x69, 0x74]
  const MINM: Code := [0x6d, 0x69, 0x6e, 0x6d]
  const ASAR: Code := [0x61, 0x73, 0x61, 0x72]
  const ASAL: Code := [0x61, 0x73, 0x61, 0x6c]

  datatype Track = Track(title: bytes, artist: bytes, album: bytes)

  // ------------------------------------------------------------------ on buffers

  predicate IsLower(b: byte) {
    0x61 <= b <= 0x7a
  }

  predicate LowerCode(c: bytes)
    requires |c| >= 4
  {
    IsLower(c[0]) && IsLower(c[1]) && IsLower(c[2]) && IsLower(c[3])
  }

  /** The heuristic: a value is taken for a container when it starts with a plausible element. */
  predicate LooksLikeContainer(v: bytes) {
    |v| >= 8 && LowerCode(v) && GetBE32(v, 4) <= |v| - 8
  }

  /** A complete element starts the buffer. */
  predicate HasElement(buf: bytes) {
    |buf| >= 8 && 8 + GetBE32(buf, 4) <= |buf|
  }

  function ValueOf(buf: bytes): bytes
    requires HasElement(buf)
  {
    buf[8..8 + GetBE32(buf, 4)]
  }

  function AfterElement(buf: bytes): bytes
    requires HasElement(buf)
  {
    buf[8 + GetBE32(buf, 4)..]
  }

  function OrElse<T>(a: Option<T>, b: Option<T>): Option<T> {
    if a.Some? then a else b
  }

  function OrEmpty(a: Option<bytes>): bytes {
    if a.Some? then a.value else []
  }

  /** What the search finds in a buffer. */
  function Search(buf: bytes, code: Code): Option<bytes>
    decreases |buf|
  {
    if !HasElement(buf) then None
    else if buf[..4] == code then Some(ValueOf(buf))
    else
      OrElse(if LooksLikeContainer(ValueOf(buf)) then Search(ValueOf(buf), code) else None,
             Search(AfterElement(buf), code))
  }

  method FindLeafIn(buf: bytes, code: Code) returns (found: Option<bytes>)
    ensures found == Search(buf, code)
    decreases |buf|
  {
    hide GetBE32, Search, LooksLikeContainer;
    var i := 0;
    assert buf[0..] == buf;
    while i + 8 <= |buf|
      invariant 0 <= i <= |buf|
      invariant Search(buf, code) == Search(buf[i..], code)
    {
      SearchAt(buf, i, code);
      var c := buf[i..i + 4];
      var len := GetBE32(buf, i + 4);
      var valStart := i + 8;
      if valStart + len > |buf| {
        return None;
      }
      var value := buf[valStart..valStart + len];
      if c == code {
        return Some(value);
      }
      if LooksLikeContainer(value) {
        found := FindLeafIn(value, code);
        if found.Some? {
          return;
        }
      }
      i := valStart + len;
    }
    SearchAtEnd(buf, i, code);
    found := None;
  }

  lemma ElementAt(buf: bytes, i: nat)
    requires i + 8 <= |buf|
    ensures var len := GetBE32(buf, i + 4);
            && buf[i..][..4] == buf[i..i + 4]
            && (HasElement(buf[i..]) <==> i + 8 + len <= |buf|)
            && (HasElement(buf[i..]) ==>
                  && ValueOf(buf[i..]) == buf[i + 8..i + 8 + len]
                  && AfterElement(buf[i..]) == buf[i + 8 + len..])
  {
    GetInSlice(buf, i, |buf|, 4);
    assert buf[i..|buf|] == buf[i..];
    hide GetBE32;
  }

  /** One element of the search, at its place in the buffer. */
  lemma SearchAt(buf: bytes, i: nat, code: Code)
    requires i + 8 <= |buf|
    ensures var len := GetBE32(buf, i + 4);
            Search(buf[i..], code) ==
            if i + 8 + len > |buf| then None
            else
              var value := buf[i + 8..i + 8 + len];
              if buf[i..i + 4] == code then Some(value)
              else
                OrElse(if LooksLikeContainer(value) then Search(value, code) else None,
                       Search(buf[i + 8 + len..], code))
  {
    hide GetBE32, LooksLikeContainer, HasElement, ValueOf, AfterElement;
    ElementAt(buf, i);
  }

  lemma SearchAtEnd(buf: bytes, i: nat, code: Code)
    requires |buf| < i + 8 && i <= |buf|
    ensures Search(buf[i..], code) == None
  {
  }

  /** Where the search finds its element, in a buffer that starts at `base`. */
  function FoundAt(buf: bytes, code: Code, base: nat): Option<nat>
    decreases |buf|
  {
    if !HasElement(buf) then None
    else if buf[..4] == code then Some(base)
    else
      OrElse(if LooksLikeContainer(ValueOf(buf)) then FoundAt(ValueOf(buf), code, base + 8) else None,
             FoundAt(AfterElement(buf), code, base + |buf| - |AfterElement(buf)|))
  }

  /** An element with the code stands at the place, and `found` is its value. */
  predicate StandsThere(buf: bytes, code: Code, base: nat, at: nat, found: Option<bytes>) {
    && base <= at <= base + |buf| && HasElement(buf[at - base..]) && buf[at - base..][..4] == code
    && found == Some(ValueOf(buf[at - base..]))
  }

  /** What the search returns is the value of the element at its place. */
  lemma {:induction false} FoundIsThere(buf: bytes, code: Code, base: nat)
    ensures FoundAt(buf, code, base).Some? <==> Search(buf, code).Some?
    ensures FoundAt(buf, code, base).Some? ==>
              StandsThere(buf, code, base, FoundAt(buf, code, base).value, Search(buf, code))
    decreases |buf|
  {
    hide LooksLikeContainer, StandsThere;
    if HasElement(buf) {
      if buf[..4] == code {
        StandsFirst(buf, code, base);
      } else {
        var value, after := ValueOf(buf), AfterElement(buf);
        hide Search, FoundAt;
        SearchStep(buf, code, base);
        FoundIsThere(value, code, base + 8);
        FoundIsThere(after, code, base + |buf| - |after|);
        if LooksLikeContainer(value) && FoundAt(value, code, base + 8).Some? {
          StandsInside(buf, code, base, FoundAt(value, code, base + 8).value, Search(value, code));
        } else if FoundAt(after, code, base + |buf| - |after|).Some? {
          StandsBehind(buf, code, base, FoundAt(after, code, base + |buf| - |after|).value, Search(after, code));
        }
      }
    }
  }

  lemma StandsFirst(buf: bytes, code: Code, base: nat)
    requires HasElement(buf) && buf[..4] == code
    ensures StandsThere(buf, code, base, base, Some(ValueOf(buf)))
  {
    assert buf[0..] == buf;
  }

  lemma StandsInside(buf: bytes, code: Code, base: nat, at: nat, found: Option<bytes>)
    requires HasElement(buf) && StandsThere(ValueOf(buf), code, base + 8, at, found)
    ensures StandsThere(buf, code, base, at, found)
  {
    hide HasElement, ValueOf;
    ElementInside(buf, at - base - 8);
  }

  lemma StandsBehind(buf: bytes, code: Code, base: nat, at: nat, found: Option<bytes>)
    requires HasElement(buf) && StandsThere(AfterElement(buf), code, base + |buf| - |AfterElement(buf)|, at, found)
    ensures StandsThere(buf, code, base, at, found)
  {
    hide GetBE32;
    var skipped := |buf| - |AfterElement(buf)|;
    assert AfterElement(buf)[at - base - skipped..] == buf[at - base..];
  }

  lemma SearchStep(buf: bytes, code: Code, base: nat)
    requires HasElement(buf) && buf[..4] != code
    ensures Search(buf, code)
         == OrElse(if LooksLikeContainer(ValueOf(buf)) then Search(ValueOf(buf), code) else None,
                   Search(AfterElement(buf), code))
    ensures FoundAt(buf, code, base)
         == OrElse(if LooksLikeContainer(ValueOf(buf)) then FoundAt(ValueOf(buf), code, base + 8) else None,
                   FoundAt(AfterElement(buf), code, base + |buf| - |AfterElement(buf)|))
  {
  }

  /** An element inside a value is one of the buffer, with the same code and value. */
  lemma ElementInside(buf: bytes, k: nat)
    requires HasElement(buf) && k <= |ValueOf(buf)| && HasElement(ValueOf(buf)[k..])
    ensures 8 + k <= |buf| && HasElement(buf[8 + k..])
    ensures buf[8 + k..][..4] == ValueOf(buf)[k..][..4] && ValueOf(buf[8 + k..]) == ValueOf(ValueOf(buf)[k..])
  {
    hide GetBE32;
    var len := GetBE32(buf, 4);
    var inner, outer := ValueOf(buf)[k..], buf[8 + k..];
    assert inner == buf[8 + k..8 + len];
    assert inner == outer[0..len - k];
    GetInSlice(outer, 0, len - k, 4);
    SliceOfSlice(outer, 0, len - k, 8, 8 + GetBE32(inner, 4));
    SliceOfSlice(outer, 0, len - k, 0, 4);
  }

  function FindLeaf(buf: bytes, code: Code): bytes {
    OrEmpty(Search(buf, code))
  }

  function TrackIn(value: bytes): Track {
    Track(FindLeaf(value, MINM), FindLeaf(value, ASAR), FindLeaf(value, ASAL))
  }

  function Listed(t: Track): seq<Track> {
    if t.title != [] || t.artist != [] then [t] else []
  }

  function Tracks(buf: bytes): seq<Track>
    decreases |buf|
  {
    if !HasElement(buf) then []
    else
      (if buf[..4] == MLIT then Listed(TrackIn(ValueOf(buf)))
       else if LooksLikeContainer(ValueOf(buf)) then Tracks(ValueOf(buf))
       else [])
      + Tracks(AfterElement(buf))
  }

  method CollectTracks(buf: bytes) returns (out: seq<Track>)
    ensures out == Tracks(buf)
    decreases |buf|
  {
    hide GetBE32, Tracks, TrackIn, Listed, LooksLikeContainer;
    var i := 0;
    out := [];
    assert buf[0..] == buf;
    assert out + Tracks(buf) == Tracks(buf);
    while i + 8 <= |buf|
      invariant 0 <= i <= |buf|
      invariant Tracks(buf) == out + Tracks(buf[i..])
    {
      TracksAt(buf, i, out);
      var c := buf[i..i + 4];
      var len := GetBE32(buf, i + 4);
      var valStart := i + 8;
      if valStart + len > |buf| {
        return;
      }
      var value := buf[valStart..valStart + len];
      if c == MLIT {
        var listed := ReadTrack(value);
        out := out + listed;
      } else if LooksLikeContainer(value) {
        var inner := CollectTracks(value);
        out := out + inner;
      }
      i := valStart + len;
    }
    TracksAtEnd(buf, i, out);
  }

  lemma TracksAt(buf: bytes, i: nat, out: seq<Track>)
    requires i + 8 <= |buf|
    ensures var len := GetBE32(buf, i + 4);
            out + Tracks(buf[i..]) ==
            if i + 8 + len > |buf| then out
            else
              var value := buf[i + 8..i + 8 + len];
              (if buf[i..i + 4] == MLIT then out + Listed(TrackIn(value))
               else if LooksLikeContainer(value) then out + Tracks(value)
               else out) + Tracks(buf[i + 8 + len..])
  {
    hide GetBE32, LooksLikeContainer, HasElement, ValueOf, AfterElement, TrackIn, Listed;
    ElementAt(buf, i);
  }

  lemma TracksAtEnd(buf: bytes, i: nat, out: seq<Track>)
    requires |buf| < i + 8 && i <= |buf|
    ensures out + Tracks(buf[i..]) == out
  {
  }

  /** Where the fields of a record were found. */
  datatype Fields = Fields(title: Option<nat>, artist: Option<nat>, album: Option<nat>)

  /** A listed track, where its record stands, and where its fields were found. */
  datatype Entry = Entry(at: nat, track: Track, fields: Fields)

  function Record(at: nat, track: Track, fields: Fields): seq<Entry> {
    if Listed(track) == [] then [] else [Entry(at, track, fields)]
  }

  function FieldsIn(value: bytes, base: nat): Fields {
    Fields(FoundAt(value, MINM, base), FoundAt(value, ASAR, base), FoundAt(value, ASAL, base))
  }

  /** The listing with the places of its records, in a buffer that starts at `base`. */
  function EntriesAt(buf: bytes, base: nat): seq<Entry>
    decreases |buf|
  {
    if !HasElement(buf) then []
    else
      (if buf[..4] == MLIT then Record(base, TrackIn(ValueOf(buf)), FieldsIn(ValueOf(buf), base + 8))
       else if LooksLikeContainer(ValueOf(buf)) then EntriesAt(ValueOf(buf), base + 8)
       else [])
      + EntriesAt(AfterElement(buf), base + |buf| - |AfterElement(buf)|)
  }

  function OfEntries(es: seq<Entry>): seq<Track> {
    seq(|es|, k requires 0 <= k < |es| => es[k].track)
  }

  lemma OfAppend(a: seq<Entry>, b: seq<Entry>)
    ensures OfEntries(a + b) == OfEntries(a) + OfEntries(b) && OfEntries([]) == []
  {
  }

  /** Without the places it is the listing. */
  lemma {:induction false} EntriesAreTracks(buf: bytes, base: nat)
    ensures OfEntries(EntriesAt(buf, base)) == Tracks(buf)
    decreases |buf|
  {
    hide LooksLikeContainer, TrackIn, FieldsIn, Record, Listed, OfEntries, EntriesAt, Tracks, ValueOf, AfterElement;
    OfAppend([], []);
    ListingStep(buf, base);
    if HasElement(buf) {
      Shrinks(buf);
      var value, after := ValueOf(buf), AfterElement(buf);
      var next := base + |buf| - |after|;
      var first := if buf[..4] == MLIT then Record(base, TrackIn(value), FieldsIn(value, base + 8))
                   else if LooksLikeContainer(value) then EntriesAt(value, base + 8)
                   else [];
      RecordIs(base, TrackIn(value), FieldsIn(value, base + 8));
      EntriesAreTracks(value, base + 8);
      EntriesAreTracks(after, next);
      OfAppend(first, EntriesAt(after, next));
    }
  }

  lemma Shrinks(buf: bytes)
    requires HasElement(buf)
    ensures |ValueOf(buf)| < |buf| && |AfterElement(buf)| < |buf|
  {
  }

  lemma ListingStep(buf: bytes, base: nat)
    ensures !HasElement(buf) ==> EntriesAt(buf, base) == [] && Tracks(buf) == []
    ensures HasElement(buf) ==>
              var value, after := ValueOf(buf), AfterElement(buf);
              && |after| <= |buf|
              && EntriesAt(buf, base) ==
                 (if buf[..4] == MLIT then Record(base, TrackIn(value), FieldsIn(value, base + 8))
                  else if LooksLikeContainer(value) then EntriesAt(value, base + 8)
                  else []) + EntriesAt(after, base + |buf| - |after|)
              && Tracks(buf) ==
                 (if buf[..4] == MLIT then Listed(TrackIn(value))
                  else if LooksLikeContainer(value) then Tracks(value)
                  else []) + Tracks(after)
  {
    hide LooksLikeContainer, TrackIn, FieldsIn, Record, Listed;
  }

  /** The track of one mlit record, listed only with a title or an artist. */
  method ReadTrack(value: bytes) returns (listed: seq<Track>)
    ensures listed == Listed(TrackIn(value))
    decreases |value|, 1
  {
    hide Search;
    var title := FindLeafIn(value, MINM);
    var artist := FindLeafIn(value, ASAR);
    var album := FindLeafIn(value, ASAL);
    var t := Track(OrEmpty(title), OrEmpty(artist), OrEmpty(album));
    listed := if t.title != [] || t.artist != [] then [t] else [];
  }

  // ------------------------------------------------------------------ on trees

  datatype Node = Leaf(code: Code, value: bytes) | Container(code: Code, children: Forest)
  datatype Forest = Nil | Cons(first: Node, rest: Forest)

  function Content(n: Node): bytes
    decreases n, 0
  {
    match n
    case Leaf(_, value) => value
    case Container(_, children) => Encode(children)
  }

  /** The DMAP form of a forest: code, big-endian length, content, for each tree in turn. */
  function Encode(f: Forest): bytes
    decreases f, 0
  {
    match f
    case Nil => []
    case Cons(n, rest) => EncodeNode(n) + Encode(rest)
  }

  function EncodeNode(n: Node): bytes
    decreases n, 1
  {
    n.code + BE32(|Content(n)| % TWO_32) + Content(n)
  }

  /** Every content's length fits its field. */
  predicate Fits(f: Forest)
    decreases f, 0
  {
    match f
    case Nil => true
    case Cons(n, rest) => FitsNode(n) && Fits(rest)
  }

  predicate FitsNode(n: Node)
    decreases n, 1
  {
    |Content(n)| < TWO_32 && (n.Container? ==> Fits(n.children))
  }

  lemma EncodedElement(n: Node, rest: bytes)
    requires |Content(n)| < TWO_32
    ensures var buf := EncodeNode(n) + rest;
            HasElement(buf) && buf[..4] == n.code && ValueOf(buf) == Content(n) && AfterElement(buf) == rest
  {
    hide Content;
    var buf := EncodeNode(n) + rest;
    assert buf[4..8] == BE32(|Content(n)|);
    ReadBE32(|Content(n)|, buf, 4);
  }

  /** A container is taken for one exactly when it has children and the first one's code is lower-case. */
  lemma ContainersShow(f: Forest)
    requires Fits(f)
    ensures LooksLikeContainer(Encode(f)) <==> f.Cons? && LowerCode(f.first.code)
  {
    match f
    case Nil =>
    case Cons(n, rest) =>
      EncodedElement(n, Encode(rest));
      var buf := EncodeNode(n) + Encode(rest);
      assert forall k :: 0 <= k < 4 ==> buf[k] == buf[..4][k];
  }

  lemma NoElementInNothing()
    ensures !HasElement([])
  {
  }

  // ------------------------------------------------------------------ searching a tree

  /** The content of the first node with the code, in preorder. */
  function FirstMatch(f: Forest, code: Code): Option<bytes> {
    match f
    case Nil => None
    case Cons(n, rest) =>
      if n.code == code then Some(Content(n)) else OrElse(MatchIn(n, code), FirstMatch(rest, code))
  }

  function MatchIn(n: Node, code: Code): Option<bytes> {
    if n.Container? then FirstMatch(n.children, code) else None
  }

  /** What the heuristic makes of the tree: any node is entered, or not, by the look of its content. */
  function Seen(f: Forest, code: Code): Option<bytes> {
    match f
    case Nil => None
    case Cons(n, rest) =>
      if n.code == code then Some(Content(n)) else OrElse(SeenIn(n, code), Seen(rest, code))
  }

  function SeenIn(n: Node, code: Code): Option<bytes> {
    if !LooksLikeContainer(Content(n)) then None
    else
      match n
      case Leaf(_, value) => Search(value, code)
      case Container(_, children) => Seen(children, code)
  }

  /** The buffer search, on every forest whose lengths fit. */
  lemma {:induction false} SearchIsSeen(f: Forest, code: Code)
    requires Fits(f)
    ensures Search(Encode(f), code) == Seen(f, code)
    decreases f
  {
    hide EncodeNode, LooksLikeContainer, HasElement, LowerCode;
    match f
    case Nil =>
      NoElementInNothing();
    case Cons(n, rest) =>
      EncodedElement(n, Encode(rest));
      SearchIsSeen(rest, code);
      if n.Container? {
        SearchIsSeen(n.children, code);
      }
  }

  /** Where the first node with the code stands in the encoding, which starts at `base`. */
  function MatchedAt(f: Forest, code: Code, base: nat): Option<nat> {
    match f
    case Nil => None
    case Cons(n, rest) =>
      if n.code == code then Some(base)
      else
        OrElse(if n.Container? then MatchedAt(n.children, code, base + 8) else None,
               MatchedAt(rest, code, base + |EncodeNode(n)|))
  }

  /** Some node of the forest has the code. */
  predicate Occurs(f: Forest, code: Code) {
    match f
    case Nil => false
    case Cons(n, rest) => n.code == code || (n.Container? && Occurs(n.children, code)) || Occurs(rest, code)
  }

  /** The first match is found where the first node with the code stands, and has its content. */
  lemma {:induction false} MatchIsThere(f: Forest, code: Code, base: nat)
    ensures MatchedAt(f, code, base).Some? <==> Occurs(f, code)
    ensures FirstMatch(f, code).Some? <==> Occurs(f, code)
    ensures MatchedAt(f, code, base).Some? ==> base <= MatchedAt(f, code, base).value < base + |Encode(f)|
  {
    hide EncodeNode;
    if f.Cons? {
      var n := f.first;
      NodeSize(n);
      MatchIsThere(f.rest, code, base + |EncodeNode(n)|);
      if n.Container? {
        MatchIsThere(n.children, code, base + 8);
      }
    }
  }

  lemma {:induction false} FoundInside(buf: bytes, code: Code, base: nat)
    ensures FoundAt(buf, code, base).Some? ==> base <= FoundAt(buf, code, base).value < base + |buf|
    decreases |buf|
  {
    hide LooksLikeContainer;
    if HasElement(buf) && buf[..4] != code {
      FoundInside(ValueOf(buf), code, base + 8);
      FoundInside(AfterElement(buf), code, base + |buf| - |AfterElement(buf)|);
    }
  }

  /**
   Up to the first node with the code, the look of each content tells the truth as far as the code goes: no
   leaf that looks like a container holds an element with the code, and every container that has a node with
   the code below it looks like one.
   */
  predicate Judged(f: Forest, code: Code) {
    match f
    case Nil => true
    case Cons(n, rest) =>
      n.code == code
      || match n
         case Leaf(_, value) => !(LooksLikeContainer(value) && Search(value, code).Some?) && Judged(rest, code)
         case Container(_, children) =>
           if Occurs(children, code) then Looks(children) && Judged(children, code)
           else (Looks(children) ==> Judged(children, code)) && Judged(rest, code)
  }

  /** The container of these children looks like one. */
  predicate Looks(children: Forest) {
    children.Cons? && LowerCode(children.first.code)
  }

  /** One node of the search in the encoding. */
  lemma FoundNode(n: Node, rest: Forest, code: Code, base: nat)
    requires FitsNode(n)
    ensures FoundAt(Encode(Cons(n, rest)), code, base) ==
            if n.code == code then Some(base)
            else
              OrElse(if LooksLikeContainer(Content(n)) then FoundAt(Content(n), code, base + 8) else None,
                     FoundAt(Encode(rest), code, base + |EncodeNode(n)|))
  {
    hide LooksLikeContainer, HasElement, Content, EncodeNode;
    EncodedElement(n, Encode(rest));
  }

  lemma NodeSize(n: Node)
    ensures |EncodeNode(n)| == 8 + |Content(n)|
  {
  }

  /** The search finds the first node with the code, at its place, exactly on the forests judged right. */
  lemma {:induction false} PlacesAgree(f: Forest, code: Code, base: nat)
    requires Fits(f)
    ensures FoundAt(Encode(f), code, base) == MatchedAt(f, code, base) <==> Judged(f, code)
    decreases f
  {
    hide LooksLikeContainer, HasElement, EncodeNode, FoundAt, Search, Encode;
    match f
    case Nil =>
      NothingFound(code, base);
    case Cons(n, rest) =>
      var next := base + |EncodeNode(n)|;
      FoundNode(n, rest, code, base);
      NodeSize(n);
      PlacesAgree(rest, code, next);
      MatchIsThere(rest, code, next);
      FoundInside(Encode(rest), code, next);
      FoundInside(Content(n), code, base + 8);
      match n
      case Leaf(_, value) =>
        FoundIsThere(value, code, base + 8);
      case Container(_, children) =>
        ContainersShow(children);
        PlacesAgree(children, code, base + 8);
        MatchIsThere(children, code, base + 8);
  }

  lemma NothingFound(code: Code, base: nat)
    ensures FoundAt(Encode(Nil), code, base) == None
  {
  }

  lemma {:induction false} JudgedIsSeen(f: Forest, code: Code)
    requires Fits(f) && Judged(f, code)
    ensures Seen(f, code) == FirstMatch(f, code)
    decreases f
  {
    hide LooksLikeContainer, Search, LowerCode;
    if f.Cons? && f.first.code != code {
      var n, rest := f.first, f.rest;
      if n.Leaf? {
        JudgedIsSeen(rest, code);
      } else {
        ContainersShow(n.children);
        MatchIsThere(n.children, code, 0);
        if Looks(n.children) {
          JudgedIsSeen(n.children, code);
        }
        if !Occurs(n.children, code) {
          JudgedIsSeen(rest, code);
        }
      }
    }
  }

  /**
   The buffer search is the tree search exactly on the forests judged right: it then finds the first node
   with the code in preorder, in its place and so with its content, and otherwise it finds something else.
   */
  lemma SearchIsTreeSearch(f: Forest, code: Code)
    requires Fits(f)
    ensures FoundAt(Encode(f), code, 0) == MatchedAt(f, code, 0) <==> Judged(f, code)
    ensures Judged(f, code) ==> Search(Encode(f), code) == FirstMatch(f, code)
  {
    PlacesAgree(f, code, 0);
    SearchIsSeen(f, code);
    if Judged(f, code) {
      JudgedIsSeen(f, code);
    }
  }

  /** Leaves do not pass for containers, and every container with children starts with a lower-case code. */
  predicate Plain(f: Forest) {
    match f
    case Nil => true
    case Cons(n, rest) => PlainNode(n) && Plain(rest)
  }

  predicate PlainNode(n: Node) {
    match n
    case Leaf(_, value) => !LooksLikeContainer(value)
    case Container(_, children) => Plain(children) && (children.Cons? ==> LowerCode(children.first.code))
  }

  lemma {:induction false} PlainIsJudged(f: Forest, code: Code)
    requires Plain(f)
    ensures Judged(f, code)
  {
    hide LooksLikeContainer, Search, LowerCode;
    if f.Cons? {
      PlainIsJudged(f.rest, code);
      if f.first.Container? {
        PlainIsJudged(f.first.children, code);
      }
    }
  }

  /** On plain forests the buffer search finds exactly the first match of a preorder tree search, for any code. */
  lemma SearchIsPreorder(f: Forest, code: Code)
    requires Fits(f) && Plain(f)
    ensures Search(Encode(f), code) == FirstMatch(f, code)
  {
    PlainIsJudged(f, code);
    SearchIsTreeSearch(f, code);
  }

  // ------------------------------------------------------------------ listing a tree

  /** One track per outermost mlit container with a title or an artist, in order. */
  function TracksOf(f: Forest): seq<Track> {
    match f
    case Nil => []
    case Cons(n, rest) => TracksIn(n) + TracksOf(rest)
  }

  function TracksIn(n: Node): seq<Track> {
    match n
    case Leaf(_, _) => []
    case Container(code, children) =>
      if code == MLIT then
        Listed(RecordTrack(children))
      else TracksOf(children)
  }

  function RecordTrack(children: Forest): Track {
    Track(OrEmpty(FirstMatch(children, MINM)), OrEmpty(FirstMatch(children, ASAR)), OrEmpty(FirstMatch(children, ASAL)))
  }

  /** What the heuristic makes of the listing. */
  function SeenTracks(f: Forest): seq<Track> {
    match f
    case Nil => []
    case Cons(n, rest) => SeenTracksIn(n) + SeenTracks(rest)
  }

  function SeenTracksIn(n: Node): seq<Track> {
    match n
    case Leaf(code, value) =>
      if code == MLIT then Listed(TrackIn(value)) else if LooksLikeContainer(value) then Tracks(value) else []
    case Container(code, children) =>
      if code == MLIT then
        Listed(SeenRecord(children))
      else if LooksLikeContainer(Content(n)) then SeenTracks(children)
      else []
  }

  function SeenRecord(children: Forest): Track {
    Track(OrEmpty(Seen(children, MINM)), OrEmpty(Seen(children, ASAR)), OrEmpty(Seen(children, ASAL)))
  }

  /** The buffer listing, on every forest whose lengths fit. */
  lemma {:induction false} TracksAreSeen(f: Forest)
    requires Fits(f)
    ensures Tracks(Encode(f)) == SeenTracks(f)
    decreases f
  {
    hide EncodeNode, LooksLikeContainer, HasElement, LowerCode, Search, Seen;
    match f
    case Nil =>
      NoElementInNothing();
    case Cons(n, rest) =>
      EncodedElement(n, Encode(rest));
      TracksAreSeen(rest);
      if n.Container? {
        TracksAreSeen(n.children);
        SearchIsSeen(n.children, MINM);
        SearchIsSeen(n.children, ASAR);
        SearchIsSeen(n.children, ASAL);
      }
  }

  /** The tree's listing with the places of its records in the encoding, which starts at `base`. */
  function TreeEntries(f: Forest, base: nat): seq<Entry> {
    match f
    case Nil => []
    case Cons(n, rest) => TreeEntriesIn(n, base) + TreeEntries(rest, base + |EncodeNode(n)|)
  }

  function TreeEntriesIn(n: Node, base: nat): seq<Entry> {
    match n
    case Leaf(_, _) => []
    case Container(code, children) =>
      if code == MLIT then Record(base, RecordTrack(children), TreeFields(children, base + 8))
      else TreeEntries(children, base + 8)
  }

  function TreeFields(children: Forest, base: nat): Fields {
    Fields(MatchedAt(children, MINM, base), MatchedAt(children, ASAR, base), MatchedAt(children, ASAL, base))
  }

  /** Without the places it is the tree's listing. */
  lemma {:induction false} TreeEntriesAreTracks(f: Forest, base: nat)
    ensures OfEntries(TreeEntries(f, base)) == TracksOf(f)
  {
    hide RecordTrack, TreeFields, EncodeNode, Record, Listed;
    if f.Cons? {
      TreeEntriesAreTracks(f.rest, base + |EncodeNode(f.first)|);
      if f.first.Container? {
        RecordIs(base, RecordTrack(f.first.children), TreeFields(f.first.children, base + 8));
        TreeEntriesAreTracks(f.first.children, base + 8);
      }
    }
  }

  predicate AllWithin(es: seq<Entry>, lo: nat, hi: nat) {
    forall e :: e in es ==> lo <= e.at < hi
  }

  lemma {:induction false} TreeEntriesWithin(f: Forest, base: nat)
    ensures AllWithin(TreeEntries(f, base), base, base + |Encode(f)|)
  {
    hide RecordTrack, TreeFields, EncodeNode, AllWithin, Record;
    if f == Nil {
      NothingWithin(base, base + |Encode(f)|);
    } else {
      var n, rest := f.first, f.rest;
      var next := base + |EncodeNode(n)|;
      NodeSize(n);
      TreeEntriesWithin(rest, next);
      NothingWithin(base, next);
      if n.Container? {
        TreeEntriesWithin(n.children, base + 8);
        WithinMore(TreeEntries(n.children, base + 8), base + 8, next, base, next);
        var record := Record(base, RecordTrack(n.children), TreeFields(n.children, base + 8));
        RecordIs(base, RecordTrack(n.children), TreeFields(n.children, base + 8));
        WithinMore(record, base, base + 1, base, next);
      }
      WithinJoin(TreeEntriesIn(n, base), TreeEntries(rest, next), base, next, next + |Encode(rest)|);
    }
  }

  lemma NothingWithin(lo: nat, hi: nat)
    ensures AllWithin([], lo, hi)
  {
  }

  lemma WithinMore(es: seq<Entry>, lo: nat, hi: nat, lo': nat, hi': nat)
    requires AllWithin(es, lo, hi) && lo' <= lo && hi <= hi'
    ensures AllWithin(es, lo', hi')
  {
  }

  lemma WithinJoin(a: seq<Entry>, b: seq<Entry>, lo: nat, mid: nat, hi: nat)
    requires AllWithin(a, lo, mid) && AllWithin(b, mid, hi) && lo <= mid <= hi
    ensures AllWithin(a + b, lo, hi)
  {
  }

  lemma {:induction false} EntriesWithin(buf: bytes, base: nat)
    ensures AllWithin(EntriesAt(buf, base), base, base + |buf|)
    decreases |buf|
  {
    hide LooksLikeContainer, TrackIn, FieldsIn, Record;
    if HasElement(buf) {
      RecordIs(base, TrackIn(ValueOf(buf)), FieldsIn(ValueOf(buf), base + 8));
      EntriesWithin(ValueOf(buf), base + 8);
      EntriesWithin(AfterElement(buf), base + |buf| - |AfterElement(buf)|);
    }
  }

  /** Listings of two stretches agree exactly when they agree in each. */
  lemma SplitByPlace(a: seq<Entry>, b: seq<Entry>, x: seq<Entry>, y: seq<Entry>, lo: nat, mid: nat, hi: nat)
    requires AllWithin(a, lo, mid) && AllWithin(b, lo, mid) && AllWithin(x, mid, hi) && AllWithin(y, mid, hi)
    ensures a + x == b + y <==> a == b && x == y
  {
    var p, q := a + x, b + y;
    assert forall k :: 0 <= k < |p| ==> if k < |a| then p[k] == a[k] && p[k] in a else p[k] == x[k - |a|] && p[k] in x;
    assert forall k :: 0 <= k < |q| ==> if k < |b| then q[k] == b[k] && q[k] in b else q[k] == y[k - |b|] && q[k] in y;
    if p == q {
      assert |a| < |p| ==> (p[|a|].at < mid <==> |a| < |b|);
      assert |b| < |q| ==> (q[|b|].at < mid <==> |b| < |a|);
      assert a == p[..|a|] && b == q[..|b|] && x == p[|a|..] && y == q[|b|..];
    }
  }

  /**
   Each node lists what it should: a leaf nothing; an mlit record its own track, its three codes being judged
   right below it, unless it is not listed either way; a container that is missed has no track to list, and one
   that is entered agrees in its turn.
   */
  predicate NodesAgree(f: Forest) {
    match f
    case Nil => true
    case Cons(n, rest) => NodeAgrees(n) && NodesAgree(rest)
  }

  predicate NodeAgrees(n: Node) {
    match n
    case Leaf(code, value) =>
      if code == MLIT then Listed(TrackIn(value)) == [] else LooksLikeContainer(value) ==> Tracks(value) == []
    case Container(code, children) =>
      if code == MLIT then RecordJudged(children) || (Unlisted(SeenRecord(children)) && Unlisted(RecordTrack(children)))
      else if Looks(children) then NodesAgree(children)
      else TracksOf(children) == []
  }

  predicate RecordJudged(children: Forest) {
    Judged(children, MINM) && Judged(children, ASAR) && Judged(children, ASAL)
  }

  predicate Unlisted(t: Track) {
    t.title == [] && t.artist == []
  }

  /** One node of the listing of the encoding. */
  lemma EntriesNode(n: Node, rest: Forest, base: nat)
    requires FitsNode(n)
    ensures EntriesAt(Encode(Cons(n, rest)), base) ==
            (if n.code == MLIT then Record(base, TrackIn(Content(n)), FieldsIn(Content(n), base + 8))
             else if LooksLikeContainer(Content(n)) then EntriesAt(Content(n), base + 8)
             else [])
            + EntriesAt(Encode(rest), base + |EncodeNode(n)|)
  {
    hide LooksLikeContainer, HasElement, Content, EncodeNode, TrackIn, FieldsIn, Record;
    EncodedElement(n, Encode(rest));
  }

  lemma NoEntries(base: nat)
    ensures EntriesAt(Encode(Nil), base) == []
  {
  }

  lemma RecordIs(at: nat, t: Track, fields: Fields)
    ensures AllWithin(Record(at, t, fields), at, at + 1)
    ensures Record(at, t, fields) == [] <==> Unlisted(t)
    ensures Listed(t) == [] <==> Unlisted(t)
    ensures !Unlisted(t) ==> Record(at, t, fields) == [Entry(at, t, fields)]
    ensures OfEntries(Record(at, t, fields)) == Listed(t)
  {
  }

  /** A record is listed alike, fields in their places, exactly when it is judged right or listed by neither. */
  lemma RecordsAgree(children: Forest, base: nat)
    requires Fits(children)
    ensures Record(base, SeenRecord(children), FieldsIn(Encode(children), base + 8))
         == Record(base, RecordTrack(children), TreeFields(children, base + 8))
       <==> RecordJudged(children) || (Unlisted(SeenRecord(children)) && Unlisted(RecordTrack(children)))
  {
    hide Record, SeenRecord, RecordTrack, FoundAt, MatchedAt, Judged, Encode, Unlisted;
    RecordIs(base, SeenRecord(children), FieldsIn(Encode(children), base + 8));
    RecordIs(base, RecordTrack(children), TreeFields(children, base + 8));
    PlacesAgree(children, MINM, base + 8);
    PlacesAgree(children, ASAR, base + 8);
    PlacesAgree(children, ASAL, base + 8);
    if RecordJudged(children) {
      JudgedRecord(children);
    }
  }

  lemma SameCount(es: seq<Entry>)
    ensures |OfEntries(es)| == |es|
  {
  }

  lemma SeenRecordIs(children: Forest)
    requires Fits(children)
    ensures TrackIn(Encode(children)) == SeenRecord(children)
  {
    hide Search, Seen;
    SearchIsSeen(children, MINM);
    SearchIsSeen(children, ASAR);
    SearchIsSeen(children, ASAL);
  }

  /** What one node lists, in its place, agrees exactly when NodeAgrees says so. */
  lemma {:induction false} NodeEntriesAgree(n: Node, base: nat)
    requires FitsNode(n)
    ensures var seen := if n.code == MLIT then Record(base, TrackIn(Content(n)), FieldsIn(Content(n), base + 8))
                        else if LooksLikeContainer(Content(n)) then EntriesAt(Content(n), base + 8)
                        else [];
            && (seen == TreeEntriesIn(n, base) <==> NodeAgrees(n))
            && AllWithin(seen, base, base + |EncodeNode(n)|)
            && AllWithin(TreeEntriesIn(n, base), base, base + |EncodeNode(n)|)
    decreases n, 0
  {
    hide LooksLikeContainer, HasElement, EncodeNode, EntriesAt, TrackIn, FieldsIn, RecordTrack, TreeFields, SeenRecord,
      Tracks, TracksOf, Record, OfEntries, Encode, Listed, RecordJudged, Unlisted;
    NodeSize(n);
    EntriesWithin(Content(n), base + 8);
    RecordIs(base, TrackIn(Content(n)), FieldsIn(Content(n), base + 8));
    match n
    case Leaf(code, value) =>
      EntriesAreTracks(value, base + 8);
      SameCount(EntriesAt(value, base + 8));
    case Container(code, children) =>
      SeenRecordIs(children);
      RecordIs(base, RecordTrack(children), TreeFields(children, base + 8));
      RecordsAgree(children, base);
      ContainersShow(children);
      EntriesAgree(children, base + 8);
      TreeEntriesWithin(children, base + 8);
      TreeEntriesAreTracks(children, base + 8);
      SameCount(TreeEntries(children, base + 8));
  }

  /** The listings hold the same tracks in the same places exactly when each node lists what it should. */
  lemma {:induction false} EntriesAgree(f: Forest, base: nat)
    requires Fits(f)
    ensures EntriesAt(Encode(f), base) == TreeEntries(f, base) <==> NodesAgree(f)
    decreases f, 1
  {
    hide LooksLikeContainer, HasElement, EncodeNode, EntriesAt, TrackIn, FieldsIn, Record, NodeAgrees, TreeEntriesIn,
      Encode, AllWithin;
    match f
    case Nil =>
      NoEntries(base);
    case Cons(n, rest) =>
      var next := base + |EncodeNode(n)|;
      EntriesNode(n, rest, base);
      NodeEntriesAgree(n, base);
      EntriesAgree(rest, next);
      EntriesWithin(Encode(rest), next);
      TreeEntriesWithin(rest, next);
      var seen := if n.code == MLIT then Record(base, TrackIn(Content(n)), FieldsIn(Content(n), base + 8))
                  else if LooksLikeContainer(Content(n)) then EntriesAt(Content(n), base + 8)
                  else [];
      SplitByPlace(seen, TreeEntriesIn(n, base), EntriesAt(Encode(rest), next), TreeEntries(rest, next), base, next,
                   next + |Encode(rest)|);
  }

  /** A record in which the three codes are judged right has its own track. */
  lemma JudgedRecord(children: Forest)
    requires Fits(children) && Judged(children, MINM) && Judged(children, ASAR) && Judged(children, ASAL)
    ensures SeenRecord(children) == RecordTrack(children)
  {
    hide Seen, FirstMatch, Judged;
    JudgedIsSeen(children, MINM);
    JudgedIsSeen(children, ASAR);
    JudgedIsSeen(children, ASAL);
  }

  /**
   The buffer listing is the tree's exactly when each node lists what it should: the same tracks of the same
   records, in order.
   */
  lemma TracksAreTreeTracks(f: Forest)
    requires Fits(f)
    ensures EntriesAt(Encode(f), 0) == TreeEntries(f, 0) <==> NodesAgree(f)
    ensures NodesAgree(f) ==> Tracks(Encode(f)) == TracksOf(f)
  {
    hide EntriesAt, TreeEntries, NodesAgree;
    EntriesAgree(f, 0);
    EntriesAreTracks(Encode(f), 0);
    TreeEntriesAreTracks(f, 0);
  }

  /** No mlit leaf outside mlit records holds the elements of a track. */
  predicate QuietLeaves(f: Forest) {
    match f
    case Nil => true
    case Cons(n, rest) =>
      && QuietLeaves(rest)
      && match n
         case Leaf(code, value) => code == MLIT ==> Listed(TrackIn(value)) == []
         case Container(code, children) => code != MLIT ==> QuietLeaves(children)
  }

  lemma {:induction false} PlainTracks(f: Forest)
    requires Fits(f) && Plain(f)
    ensures |SeenTracks(f)| >= |TracksOf(f)|
    ensures |SeenTracks(f)| == |TracksOf(f)| <==> QuietLeaves(f)
    ensures QuietLeaves(f) ==> SeenTracks(f) == TracksOf(f)
    decreases f
  {
    hide LooksLikeContainer, Search, LowerCode, Seen, FirstMatch, TrackIn;
    if f.Cons? {
      PlainTracks(f.rest);
      if f.first.Container? {
        var children := f.first.children;
        PlainTracks(children);
        ContainersShow(children);
        PlainIsJudged(children, MINM);
        PlainIsJudged(children, ASAR);
        PlainIsJudged(children, ASAL);
        JudgedRecord(children);
      }
    }
  }

  /** On plain forests the listing is the tree's exactly when no mlit leaf outside the records lists a track. */
  lemma TracksAreTheListing(f: Forest)
    requires Fits(f) && Plain(f)
    ensures Tracks(Encode(f)) == TracksOf(f) <==> QuietLeaves(f)
  {
    TracksAreSeen(f);
    PlainTracks(f);
  }

  // ------------------------------------------------------------------ the failing inputs

  /** A text that reads as an element is searched as a container. */
  lemma LeafMistakenForContainer()
    ensures var text := MINM + [0, 0, 0, 0];
            var f := Cons(Leaf(ASAR, text), Nil);
            FirstMatch(f, MINM) == None && Search(Encode(f), MINM) == Some([])
  {
    var text := MINM + [0, 0, 0, 0];
    var n := Leaf(ASAR, text);
    EncodedElement(n, []);
    assert Encode(Cons(n, Nil)) == EncodeNode(n) + [];
    var inner := Leaf(MINM, []);
    EncodedElement(inner, []);
    assert EncodeNode(inner) + [] == text;
    ContainersShow(Cons(inner, Nil));
    assert Encode(Cons(inner, Nil)) == text;
  }

  const AESP: Code := [0x61, 0x65, 0x53, 0x50]

  lemma LeafSize(code: Code, value: bytes, rest: Forest)
    ensures |Encode(Cons(Leaf(code, value), rest))| == 8 + |value| + |Encode(rest)|
    ensures |value| < TWO_32 && Fits(rest) ==> Fits(Cons(Leaf(code, value), rest))
  {
    assert EncodeNode(Leaf(code, value)) == code + BE32(|value| % TWO_32) + value;
  }

  /** A container whose first child has a code with capitals is not entered, and the title behind it is missed. */
  lemma ContainerMissed(title: bytes)
    requires |title| < 0x1000
    ensures var f := Cons(Container(MLIT, Cons(Leaf(AESP, []), Cons(Leaf(MINM, title), Nil))), Nil);
            Fits(f) && FirstMatch(f, MINM) == Some(title) && Search(Encode(f), MINM) == None
  {
    hide Encode, LooksLikeContainer, Search;
    var last := Cons(Leaf(MINM, title), Nil);
    var children := Cons(Leaf(AESP, []), last);
    assert Encode(Nil) == [] by { NilIsEmpty(); }
    LeafSize(MINM, title, Nil);
    LeafSize(AESP, [], last);
    ContainersShow(children);
    var n := Container(MLIT, children);
    assert MLIT[1] != MINM[1] && AESP[0] != MINM[0];
    assert FitsNode(n) && Fits(Cons(n, Nil));
    SearchIsSeen(Cons(n, Nil), MINM);
    assert FirstMatch(last, MINM) == Some(title) && FirstMatch(children, MINM) == Some(title);
    assert SeenIn(n, MINM) == None && Seen(Nil, MINM) == None;
  }

  lemma NilIsEmpty()
    ensures Encode(Nil) == []
  {
  }

  // ------------------------------------------------------------------ told from the octets

  /** A complete element: four octets of code, four of a big-endian length, and that many more. */
  lemma ElementOctets(buf: bytes)
    ensures HasElement(buf) <==>
            |buf| >= 8 &&
            8 + 0x100_0000 * buf[4] as int + 0x1_0000 * buf[5] as int + 0x100 * buf[6] as int + buf[7] as int <= |buf|
    ensures HasElement(buf) ==>
              var n := 0x100_0000 * buf[4] as int + 0x1_0000 * buf[5] as int + 0x100 * buf[6] as int + buf[7] as int;
              ValueOf(buf) == buf[8..8 + n] && AfterElement(buf) == buf[8 + n..]
  {
    hide GetBE32;
    ReadSpells(buf, 4);
  }

  /** What is taken for a container: four letters from a to z, then the length of a complete element. */
  lemma ContainerOctets(v: bytes)
    ensures LooksLikeContainer(v) <==>
            && HasElement(v)
            && 'a' as int <= v[0] <= 'z' as int && 'a' as int <= v[1] <= 'z' as int
            && 'a' as int <= v[2] <= 'z' as int && 'a' as int <= v[3] <= 'z' as int
  {
  }

  /** An incomplete element at the end changes nothing. */
  lemma {:induction false} TailIsIgnored(f: Forest, tail: bytes, code: Code)
    requires Fits(f) && !HasElement(tail)
    ensures Search(Encode(f) + tail, code) == Search(Encode(f), code)
    ensures Tracks(Encode(f) + tail) == Tracks(Encode(f))
    decreases f
  {
    hide LooksLikeContainer, HasElement, EncodeNode, Content, TrackIn, Listed;
    match f
    case Nil =>
      NoElementInNothing();
      assert Encode(f) + tail == tail;
    case Cons(n, rest) =>
      hide Search, Tracks;
      TailIsIgnored(rest, tail, code);
      assert Encode(f) + tail == EncodeNode(n) + (Encode(rest) + tail);
      FirstElement(n, Encode(rest), code);
      FirstElement(n, Encode(rest) + tail, code);
  }

  lemma FirstElement(n: Node, rest: bytes, code: Code)
    requires FitsNode(n)
    ensures Search(EncodeNode(n) + rest, code) ==
            if n.code == code then Some(Content(n))
            else OrElse(if LooksLikeContainer(Content(n)) then Search(Content(n), code) else None, Search(rest, code))
    ensures Tracks(EncodeNode(n) + rest) ==
            (if n.code == MLIT then Listed(TrackIn(Content(n)))
             else if LooksLikeContainer(Content(n)) then Tracks(Content(n))
             else []) + Tracks(rest)
  {
    hide LooksLikeContainer, HasElement, EncodeNode, Content, TrackIn, Listed;
    EncodedElement(n, rest);
  }

  /** A record's track is its minm, asar and asal leaves; it is listed with a title or an artist. */
  lemma RecordIsListed(title: bytes, artist: bytes, album: bytes)
    requires |title| + |artist| + |album| < 0xffff_0000
    requires !LooksLikeContainer(title) && !LooksLikeContainer(artist) && !LooksLikeContainer(album)
    ensures var mlit: Code := ['m' as byte, 'l' as byte, 'i' as byte, 't' as byte];
            var minm: Code := ['m' as byte, 'i' as byte, 'n' as byte, 'm' as byte];
            var asar: Code := ['a' as byte, 's' as byte, 'a' as byte, 'r' as byte];
            var asal: Code := ['a' as byte, 's' as byte, 'a' as byte, 'l' as byte];
            var fields := Cons(Leaf(minm, title), Cons(Leaf(asar, artist), Cons(Leaf(asal, album), Nil)));
            Tracks(Encode(Cons(Container(mlit, fields), Nil))) ==
            if title != [] || artist != [] then [Track(title, artist, album)] else []
  {
    hide LooksLikeContainer, Encode, Content, Tracks, Search, Fits, Seen;
    CodesAre();
    var albums := Cons(Leaf(ASAL, album), Nil);
    var artists := Cons(Leaf(ASAR, artist), albums);
    var fields := Cons(Leaf(MINM, title), artists);
    var record := Cons(Container(MLIT, fields), Nil);
    LeafText(MINM, title, artists);
    LeafText(ASAR, artist, albums);
    LeafText(ASAL, album, Nil);
    FitsOne(MLIT, fields);
    TracksAreSeen(record);
    FieldsAreSeen(title, artist, album);
  }

  lemma ContentIs(code: Code, children: Forest)
    ensures Content(Container(code, children)) == Encode(children)
  {
  }

  lemma LeafText(code: Code, value: bytes, rest: Forest)
    ensures |Encode(Cons(Leaf(code, value), rest))| == 8 + |value| + |Encode(rest)| && |Encode(Nil)| == 0
    ensures Content(Leaf(code, value)) == value
    ensures |value| < TWO_32 && Fits(rest) ==> Fits(Cons(Leaf(code, value), rest))
    ensures Fits(Nil)
  {
    hide EncodeNode;
    var n := Leaf(code, value);
    NodeSize(n);
    assert Encode(Cons(n, rest)) == EncodeNode(n) + Encode(rest);
  }

  lemma FitsOne(code: Code, children: Forest)
    requires Fits(children) && |Encode(children)| < TWO_32
    ensures Fits(Cons(Container(code, children), Nil))
  {
    LeafText(code, [], Nil);
    ContentIs(code, children);
  }

  lemma FieldsAreSeen(title: bytes, artist: bytes, album: bytes)
    requires !LooksLikeContainer(title) && !LooksLikeContainer(artist) && !LooksLikeContainer(album)
    ensures var fields := Cons(Leaf(MINM, title), Cons(Leaf(ASAR, artist), Cons(Leaf(ASAL, album), Nil)));
            SeenRecord(fields) == Track(title, artist, album)
  {
    hide LooksLikeContainer, Encode, Search, Seen;
    var albums := Cons(Leaf(ASAL, album), Nil);
    var artists := Cons(Leaf(ASAR, artist), albums);
    assert MINM[0] != ASAR[0] == ASAL[0] && ASAR[3] != ASAL[3];
    SeenLeaf(MINM, title, artists, MINM);
    SeenLeaf(MINM, title, artists, ASAR);
    SeenLeaf(MINM, title, artists, ASAL);
    SeenLeaf(ASAR, artist, albums, ASAR);
    SeenLeaf(ASAR, artist, albums, ASAL);
    SeenLeaf(ASAL, album, Nil, ASAL);
  }

  lemma SeenLeaf(code: Code, value: bytes, rest: Forest, wanted: Code)
    requires !LooksLikeContainer(value)
    ensures Seen(Cons(Leaf(code, value), rest), wanted) == if code == wanted then Some(value) else Seen(rest, wanted)
  {
    hide LooksLikeContainer;
    assert SeenIn(Leaf(code, value), wanted) == None;
  }

  lemma CodesAre()
    ensures ['m' as byte, 'l' as byte, 'i' as byte, 't' as byte] == MLIT
            && ['m' as byte, 'i' as byte, 'n' as byte, 'm' as byte] == MINM
    ensures ['a' as byte, 's' as byte, 'a' as byte, 'r' as byte] == ASAR
            && ['a' as byte, 's' as byte, 'a' as byte, 'l' as byte] == ASAL
  {
  }
}
