/**
 Text search and header parsing of the MJPEG reader (optional/esphome/MjpegStream.cpp), and the parser
 that sees the whole stream at once, to which the incremental reader is compared.
 */
module MjpegText {
  import opened Decimals
  import opened Options

  const HEADER_END := "\r\n\r\n"
  const LENGTH_NAME := "content-length:"

  // ------------------------------------------------------------------ searching

  predicate OccursAt(s: string, m: string, i: nat) {
    i + |m| <= |s| && s[i..i + |m|] == m
  }

  /** The first occurrence of `m` in `s` at or after `from`. */
  function FirstFrom(s: string, m: string, from: nat): (r: Option<nat>)
    ensures r.Some? ==> from <= r.value && OccursAt(s, m, r.value) && forall k :: from <= k < r.value ==>
            !OccursAt(s, m, k)
    ensures r.None? ==> forall k :: from <= k ==> !OccursAt(s, m, k)
    decreases |s| - from
  {
    if from + |m| > |s| then None
    else if s[from..from + |m|] == m then Some(from)
    else FirstFrom(s, m, from + 1)
  }

  function First(s: string, m: string): Option<nat> {
    FirstFrom(s, m, 0)
  }

  lemma FirstIs(s: string, m: string, i: nat)
    requires OccursAt(s, m, i) && forall k :: 0 <= k < i ==> !OccursAt(s, m, k)
    ensures First(s, m) == Some(i)
  {
  }

  lemma OccursInPrefix(s: string, more: string, m: string, i: nat)
    ensures OccursAt(s, m, i) ==> OccursAt(s + more, m, i)
    ensures i + |m| <= |s| && OccursAt(s + more, m, i) ==> OccursAt(s, m, i)
  {
    if i + |m| <= |s| {
      assert (s + more)[i..i + |m|] == s[i..i + |m|];
    }
  }

  /** What is found in a prefix is found in the whole; what ends inside the prefix is found in it. */
  lemma FirstIsStable(s: string, more: string, m: string)
    ensures First(s, m).Some? ==> First(s + more, m) == First(s, m)
    ensures First(s + more, m).Some? && First(s + more, m).value + |m| <= |s| ==> First(s, m) == First(s + more, m)
  {
    hide OccursAt;
    forall i: nat
      ensures OccursAt(s, m, i) ==> OccursAt(s + more, m, i)
      ensures i + |m| <= |s| && OccursAt(s + more, m, i) ==> OccursAt(s, m, i)
    {
      OccursInPrefix(s, more, m, i);
    }
    if First(s, m).Some? {
      var i := First(s, m).value;
      OccursFits(s, m, i);
      FirstIs(s + more, m, i);
    }
    if First(s + more, m).Some? && First(s + more, m).value + |m| <= |s| {
      FirstIs(s, m, First(s + more, m).value);
    }
  }

  lemma OccursFits(s: string, m: string, i: nat)
    requires OccursAt(s, m, i)
    ensures i + |m| <= |s|
  {
  }

  // ------------------------------------------------------------------ Content-Length

  function Lower(c: char): char {
    if 'A' <= c <= 'Z' then (c as int + 32) as char else c
  }

  function LowerAll(s: string): (r: string)
    ensures |r| == |s|
  {
    seq(|s|, i requires 0 <= i < |s| => Lower(s[i]))
  }

  lemma MatchesAt(hay: string, needle: string, i: nat)
    requires i + |needle| <= |hay|
    ensures OccursAt(LowerAll(hay), LowerAll(needle), i) <==>
            forall k :: 0 <= k < |needle| ==> Lower(hay[i + k]) == Lower(needle[k])
  {
    var a, b := LowerAll(hay)[i..i + |needle|], LowerAll(needle);
    assert forall k :: 0 <= k < |needle| ==> a[k] == Lower(hay[i + k]) && b[k] == Lower(needle[k]);
    assert a == b <==> forall k :: 0 <= k < |needle| ==> a[k] == b[k];
  }

  /** The same character, or one ASCII letter in its two cases. */
  predicate SameLetter(a: char, b: char) {
    || a == b
    || ('A' <= a <= 'Z' && b as int - a as int == 32)
    || ('A' <= b <= 'Z' && a as int - b as int == 32)
  }

  /** `m` is written at `i`, in any letter case. */
  predicate SpelledAt(s: string, m: string, i: nat) {
    i + |m| <= |s| && forall k :: 0 <= k < |m| ==> SameLetter(s[i + k], m[k])
  }

  lemma LowerIsCaseBlind(a: char, b: char)
    ensures Lower(a) == Lower(b) <==> SameLetter(a, b)
  {
  }

  lemma SpelledIs(hay: string, needle: string, i: nat)
    ensures OccursAt(LowerAll(hay), LowerAll(needle), i) <==> SpelledAt(hay, needle, i)
  {
    hide SameLetter, Lower, LowerAll, OccursAt;
    forall a, b ensures Lower(a) == Lower(b) <==> SameLetter(a, b) {
      LowerIsCaseBlind(a, b);
    }
    if i + |needle| <= |hay| {
      MatchesAt(hay, needle, i);
    } else if OccursAt(LowerAll(hay), LowerAll(needle), i) {
      OccursFits(LowerAll(hay), LowerAll(needle), i);
      assert false;
    }
  }

  /** Case-insensitive search; an empty needle is nowhere. */
  method IFind(hay: string, needle: string) returns (r: Option<nat>)
    ensures r == if needle == "" then None else First(LowerAll(hay), LowerAll(needle))
    ensures r.Some? ==>
              needle != "" && SpelledAt(hay, needle, r.value) && forall k :: 0 <= k < r.value ==>
                  !SpelledAt(hay, needle, k)
    ensures r.None? ==> needle == "" || forall k: nat :: !SpelledAt(hay, needle, k)
  {
    hide SpelledAt;
    forall k ensures OccursAt(LowerAll(hay), LowerAll(needle), k) <==> SpelledAt(hay, needle, k) {
      SpelledIs(hay, needle, k);
    }
    if needle == "" {
      return None;
    }
    var i := 0;
    while i + |needle| <= |hay|
      invariant forall k :: 0 <= k < i ==> !OccursAt(LowerAll(hay), LowerAll(needle), k)
    {
      var j := 0;
      while j < |needle| && Lower(hay[i + j]) == Lower(needle[j])
        invariant 0 <= j <= |needle|
        invariant forall k :: 0 <= k < j ==> Lower(hay[i + k]) == Lower(needle[k])
      {
        j := j + 1;
      }
      MatchesAt(hay, needle, i);
      if j == |needle| {
        FirstIs(LowerAll(hay), LowerAll(needle), i);
        return Some(i);
      }
      i := i + 1;
    }
    return None;
  }

  predicate IsBlank(c: char) {
    c == ' ' || c == '\t'
  }

  function SkipBlanks(s: string): string {
    if s != [] && IsBlank(s[0]) then SkipBlanks(s[1..]) else s
  }

  /** The number after the header name; -1 without the header or without a digit. */
  function ContentLength(headers: string): int {
    match First(LowerAll(headers), LENGTH_NAME)
    case None => -1
    case Some(k) =>
      if k + |LENGTH_NAME| > |headers| then -1
      else
        var run := DigitRun(SkipBlanks(headers[k + |LENGTH_NAME|..]));
        DigitRunDigits(SkipBlanks(headers[k + |LENGTH_NAME|..]));
        if run == [] then -1 else NumberOf(run)
  }

  method ParseContentLength(headers: string) returns (v: int)
    ensures v == ContentLength(headers)
  {
    hide FirstFrom, OccursAt, SkipBlanks, DigitRun, NumberOf;
    assert LowerAll(LENGTH_NAME) == LENGTH_NAME;
    var k := IFind(headers, LENGTH_NAME);
    if k.None? {
      return -1;
    }
    OccursFits(LowerAll(headers), LENGTH_NAME, k.value);
    var i := PastBlanks(headers, k.value + |LENGTH_NAME|);
    v := ReadNumber(headers, i);
  }

  method PastBlanks(s: string, start: nat) returns (i: nat)
    requires start <= |s|
    ensures i <= |s| && s[i..] == SkipBlanks(s[start..])
  {
    i := start;
    while i < |s| && IsBlank(s[i])
      invariant start <= i <= |s|
      invariant SkipBlanks(s[start..]) == SkipBlanks(s[i..])
    {
      assert s[i..][1..] == s[i + 1..];
      i := i + 1;
    }
  }

  /** The number written at `start`, -1 when there is no digit. */
  method ReadNumber(s: string, start: nat) returns (v: int)
    requires start <= |s|
    ensures forall c :: c in DigitRun(s[start..]) ==> IsDigit(c)
    ensures v == if DigitRun(s[start..]) == [] then -1 else NumberOf(DigitRun(s[start..]))
  {
    hide DigitRun;
    ghost var run := DigitRun(s[start..]);
    DigitRunDigits(s[start..]);
    v := 0;
    var any := false;
    var i := start;
    while i < |s| && IsDigit(s[i])
      invariant start <= i <= start + |run|
      invariant any == (i > start) && v == NumberOf(run[..i - start])
    {
      assert s[start..][i - start] == s[i];
      assert run[..i + 1 - start][..i - start] == run[..i - start];
      v := v * 10 + DigitValue(s[i]);
      i := i + 1;
      any := true;
    }
    assert run[..i - start] == run;
    if !any {
      v := -1;
    }
  }

  lemma {:induction false} SkipsBlanks(blanks: string, rest: string)
    requires (forall c :: c in blanks ==> IsBlank(c)) && (rest != [] ==> !IsBlank(rest[0]))
    ensures SkipBlanks(blanks + rest) == rest
  {
    if blanks == [] {
      assert blanks + rest == rest;
    } else {
      assert (blanks + rest)[1..] == blanks[1..] + rest;
      SkipsBlanks(blanks[1..], rest);
    }
  }

  /** Whatever the letter case, the number written after the first Content-Length name is read back. */
  lemma ContentLengthReadsBack(before: string, name: string, blanks: string, n: nat, rest: string)
    requires LowerAll(name) == LENGTH_NAME
    requires First(LowerAll(before + name), LENGTH_NAME) == Some(|before|)
    requires (forall c :: c in blanks ==> IsBlank(c)) && (rest != [] ==> !IsDigit(rest[0]))
    ensures ContentLength((before + name) + (blanks + (Decimal(n) + rest))) == n
  {
    hide FirstFrom, OccursAt, Decimal, SkipBlanks, DigitRun, NumberOf;
    var tail := blanks + (Decimal(n) + rest);
    var headers := (before + name) + tail;
    assert LowerAll(headers) == LowerAll(before + name) + LowerAll(tail);
    FirstIsStable(LowerAll(before + name), LowerAll(tail), LENGTH_NAME);
    assert headers[|before| + |LENGTH_NAME|..] == tail;
    assert Decimal(n)[0] in Decimal(n);
    SkipsBlanks(blanks, Decimal(n) + rest);
    RunsDigits(Decimal(n), rest);
    NumberOfDecimal(n);
  }

  // ------------------------------------------------------------------ what headers state

  /** The first Content-Length name, in any letter case, begins at `k`. */
  ghost predicate FirstName(headers: string, k: nat) {
    SpelledAt(headers, "content-length:", k) && forall j :: 0 <= j < k ==> !SpelledAt(headers, "content-length:", j)
  }

  /** Blanks stand from `from` to `to`, and none there. */
  ghost predicate BlanksTo(s: string, from: nat, to: nat) {
    && from <= to <= |s| && (forall j :: from <= j < to ==> s[j] == ' ' || s[j] == '\t')
    && (to < |s| ==> s[to] != ' ' && s[to] != '\t')
  }

  /** Digits stand from `i` to `e`, and none there. */
  ghost predicate DigitsTo(s: string, i: nat, e: nat) {
    && i <= e <= |s| && (forall j :: i <= j < e ==> '0' <= s[j] <= '9')
    && (e < |s| ==> !('0' <= s[e] <= '9'))
  }

  /** The digits behind the first Content-Length name and its blanks stand from `i` to `e`; there may be none. */
  ghost predicate ValueAt(headers: string, i: nat, e: nat) {
    exists k: nat :: FirstName(headers, k) && BlanksTo(headers, k + 15, i) && DigitsTo(headers, i, e)
  }

  /** Digits follow the first Content-Length name and its blanks, and they are not all zero. */
  ghost predicate StatesLength(headers: string) {
    exists i: nat, e: nat :: ValueAt(headers, i, e) && !OnlyZeros(headers, i, e)
  }

  ghost predicate OnlyZeros(s: string, i: nat, e: nat) {
    e <= |s| && forall j :: i <= j < e ==> s[j] == '0'
  }

  lemma NamesAre(headers: string)
    ensures First(LowerAll(headers), LENGTH_NAME).None? <==> forall k: nat :: !FirstName(headers, k)
    ensures forall k: nat :: FirstName(headers, k) <==> First(LowerAll(headers), LENGTH_NAME) == Some(k)
  {
    assert LowerAll("content-length:") == LENGTH_NAME;
    hide OccursAt, SpelledAt, LowerAll, FirstFrom;
    forall k ensures OccursAt(LowerAll(headers), LENGTH_NAME, k) <==> SpelledAt(headers, "content-length:", k) {
      SpelledIs(headers, "content-length:", k);
    }
    var r := First(LowerAll(headers), LENGTH_NAME);
    if r.Some? {
      assert FirstName(headers, r.value);
    }
    forall k: nat | FirstName(headers, k) ensures r == Some(k) {
      FirstIs(LowerAll(headers), LENGTH_NAME, k);
    }
  }

  lemma {:induction false} SkipsTo(s: string, from: nat, to: nat)
    requires from <= to && BlanksTo(s, from, to)
    ensures SkipBlanks(s[from..]) == s[to..]
    decreases |s| - from
  {
    if from < to {
      assert s[from..][0] == s[from] && s[from..][1..] == s[from + 1..];
      SkipsTo(s, from + 1, to);
    } else if to < |s| {
      assert s[to..][0] == s[to];
    }
  }

  lemma {:induction false} BlanksEnd(s: string, from: nat) returns (to: nat)
    requires from <= |s|
    ensures BlanksTo(s, from, to)
    decreases |s| - from
  {
    to := from;
    if from < |s| && (s[from] == ' ' || s[from] == '\t') {
      to := BlanksEnd(s, from + 1);
    }
  }

  lemma RunTo(s: string, i: nat)
    requires i <= |s|
    ensures DigitsTo(s, i, i + |DigitRun(s[i..])|)
    ensures forall e: nat :: DigitsTo(s, i, e) ==> DigitRun(s[i..]) == s[i..e]
  {
    var run := DigitRun(s[i..]);
    hide DigitRun;
    DigitRunDigits(s[i..]);
    var n := |run|;
    assert s[i..][..n] == s[i..i + n];
    forall j | i <= j < i + n ensures '0' <= s[j] <= '9' {
      assert s[j] == run[j - i] && run[j - i] in run;
    }
    if i + n < |s| {
      assert s[i..][n] == s[i + n];
    }
  }

  /** A length is read from where it is written: -1 without digits, and their number otherwise. */
  lemma LengthIsWritten(headers: string, i: nat, e: nat)
    requires ValueAt(headers, i, e)
    ensures i <= e <= |headers| && forall c :: c in headers[i..e] ==> '0' <= c <= '9'
    ensures ContentLength(headers) == if i == e then -1 else NumberOf(headers[i..e])
  {
    hide FirstFrom, SpelledAt, SkipBlanks, DigitRun, NumberOf, LowerAll;
    var k: nat :| FirstName(headers, k) && BlanksTo(headers, k + 15, i) && DigitsTo(headers, i, e);
    NamesAre(headers);
    SkipsTo(headers, k + 15, i);
    RunTo(headers, i);
  }

  /** Headers either have no Content-Length name, and are measured as -1, or a place for its digits. */
  lemma LengthIsSomewhere(headers: string)
    ensures (forall k: nat :: !SpelledAt(headers, "content-length:", k))
            <==> (forall i: nat, e: nat :: !ValueAt(headers, i, e))
    ensures (forall i: nat, e: nat :: !ValueAt(headers, i, e)) ==> ContentLength(headers) == -1
  {
    hide FirstFrom, SpelledAt, SkipBlanks, DigitRun, NumberOf, LowerAll;
    NamesAre(headers);
    var r := First(LowerAll(headers), LENGTH_NAME);
    if r.Some? {
      NameFits(headers, r.value);
      var i := BlanksEnd(headers, r.value + 15);
      RunTo(headers, i);
      assert ValueAt(headers, i, i + |DigitRun(headers[i..])|);
    } else {
      NoName(headers);
    }
  }

  lemma NameFits(headers: string, k: nat)
    requires FirstName(headers, k)
    ensures k + 15 <= |headers| && SpelledAt(headers, "content-length:", k)
  {
  }

  lemma {:induction false} NoName(headers: string)
    requires forall k: nat :: !FirstName(headers, k)
    ensures forall k: nat :: !SpelledAt(headers, "content-length:", k)
  {
    hide SpelledAt;
    if k: nat :| SpelledAt(headers, "content-length:", k) {
      FirstOfNames(headers, k);
    }
  }

  lemma {:induction false} FirstOfNames(headers: string, k: nat)
    requires SpelledAt(headers, "content-length:", k)
    ensures exists j: nat :: FirstName(headers, j)
  {
    hide SpelledAt;
    if j: nat :| j < k && SpelledAt(headers, "content-length:", j) {
      FirstOfNames(headers, j);
    } else {
      assert FirstName(headers, k);
    }
  }

  /**
   The length as the headers' text states it. It is positive exactly when digits that are not all zero follow
   the first Content-Length name, in any letter case, and its blanks; it is -1 exactly when no digit does,
   which includes headers without the name.
   */
  lemma LengthIsStated(headers: string)
    ensures ContentLength(headers) > 0 <==> StatesLength(headers)
    ensures ContentLength(headers) == -1 <==> forall i: nat, e: nat :: ValueAt(headers, i, e) ==> i == e
    ensures ContentLength(headers) >= -1
  {
    hide ContentLength, ValueAt, OnlyZeros, NumberOf;
    LengthIsSomewhere(headers);
    forall i: nat, e: nat | ValueAt(headers, i, e)
      ensures ContentLength(headers) == -1 <==> i == e
      ensures ContentLength(headers) > 0 <==> !OnlyZeros(headers, i, e)
      ensures ContentLength(headers) >= -1
    {
      LengthIsWritten(headers, i, e);
      ZerosAreNothing(headers[i..e]);
      ZerosAre(headers, i, e);
    }
  }

  lemma ZerosAre(s: string, i: nat, e: nat)
    requires i <= e <= |s|
    ensures OnlyZeros(s, i, e) <==> forall c :: c in s[i..e] ==> c == '0'
  {
    if OnlyZeros(s, i, e) {
      forall c | c in s[i..e] ensures c == '0' {
        var j :| 0 <= j < e - i && s[i..e][j] == c;
        assert s[i + j] == c;
      }
    }
    if forall c :: c in s[i..e] ==> c == '0' {
      forall j | i <= j < e ensures s[j] == '0' {
        assert s[i..e][j - i] == s[j] && s[j] in s[i..e];
      }
    }
  }

  // ------------------------------------------------------------------ the whole-stream parser

  predicate IsLineEnd(c: char) {
    c == '\r' || c == '\n'
  }

  /** Without trailing line ends. */
  function Trimmed(s: string): (r: string)
    ensures r <= s && (r != [] ==> !IsLineEnd(r[|r| - 1])) && forall k :: |r| <= k < |s| ==> IsLineEnd(s[k])
  {
    if s != [] && IsLineEnd(s[|s| - 1]) then Trimmed(s[..|s| - 1]) else s
  }

  datatype Frame = Frame(payload: string, rest: string)

  /** The payload of the part whose headers end at the start of `body`. */
  function Payload(body: string, length: int, marker: string): Option<Frame> {
    if length > 0 then
      if |body| < length then None else Some(Frame(body[..length], body[length..]))
    else
      match First(body, marker)
      case None => None
      case Some(n) => if n <= |body| then Some(Frame(Trimmed(body[..n]), body[n..])) else None
  }

  function PartAfterMarker(part: string, marker: string): Option<Frame> {
    match First(part, HEADER_END)
    case None => None
    case Some(h) => if h + 4 <= |part| then Payload(part[h + 4..], ContentLength(part[..h]), marker) else None
  }

  /** The next frame of a stream seen whole, and what follows it. */
  function NextOf(stream: string, marker: string): Option<Frame> {
    match First(stream, marker)
    case None => None
    case Some(b) => if b + |marker| <= |stream| then PartAfterMarker(stream[b + |marker|..], marker) else None
  }

  // ------------------------------------------------------------------ encoded parts

  /** One part as a camera sends it: what precedes its boundary line, its headers, its image. */
  datatype Part = Part(gap: string, headers: string, image: string)

  function PartText(p: Part, marker: string): string {
    p.gap + marker + p.headers + "\r\n\r\n" + p.image
  }

  function StreamText(parts: seq<Part>, marker: string): string {
    if parts == [] then [] else PartText(parts[0], marker) + StreamText(parts[1..], marker)
  }

  /** The boundary is not met earlier, the headers end where they end and state the image's length. */
  predicate ProperPart(p: Part, marker: string) {
    && First(p.gap + marker, marker) == Some(|p.gap|)
    && First(p.headers + "\r\n\r\n", "\r\n\r\n") == Some(|p.headers|)
    && ContentLength(p.headers) == |p.image| > 0
  }

  lemma HeadersAreExact(p: Part, marker: string, rest: string)
    requires ProperPart(p, marker)
    ensures PartAfterMarker((p.headers + HEADER_END) + (p.image + rest), marker) == Some(Frame(p.image, rest))
  {
    hide ContentLength, FirstFrom;
    var part := (p.headers + HEADER_END) + (p.image + rest);
    FirstIsStable(p.headers + HEADER_END, p.image + rest, HEADER_END);
    assert part[..|p.headers|] == p.headers && part[|p.headers| + 4..] == p.image + rest;
    assert (p.image + rest)[..|p.image|] == p.image && (p.image + rest)[|p.image|..] == rest;
  }

  /** A part with a Content-Length yields exactly its image, even when the image contains the boundary. */
  lemma PartIsExact(p: Part, marker: string, rest: string)
    requires ProperPart(p, marker)
    ensures NextOf(PartText(p, marker) + rest, marker) == Some(Frame(p.image, rest))
  {
    hide First, PartAfterMarker, ContentLength;
    var part := (p.headers + HEADER_END) + (p.image + rest);
    var stream := (p.gap + marker) + part;
    assert PartText(p, marker) + rest == stream;
    FirstIsStable(p.gap + marker, part, marker);
    assert stream[|p.gap| + |marker|..] == part;
    HeadersAreExact(p, marker, rest);
  }

  // ------------------------------------------------------------------ parts without a length

  /** A part whose headers state no length, ended by line ends and the next boundary. */
  ghost predicate ProperUnmeasured(p: Part, ends: string, marker: string) {
    && First(p.gap + marker, marker) == Some(|p.gap|)
    && First(p.headers + "\r\n\r\n", "\r\n\r\n") == Some(|p.headers|)
    && !StatesLength(p.headers)
    && (forall c :: c in ends ==> c == '\r' || c == '\n') && marker != "" && marker[0] != '\r' && marker[0] != '\n'
  }

  /** The boundary text begins somewhere in the image. */
  predicate BoundaryInside(image: string, ends: string, marker: string) {
    exists k :: 0 <= k < |image| && OccursAt(image + ends + marker, marker, k)
  }

  lemma {:induction false} TrimmedIs(s: string, n: nat)
    requires n <= |s| && (n == 0 || !IsLineEnd(s[n - 1]))
    requires forall k :: n <= k < |s| ==> IsLineEnd(s[k])
    ensures Trimmed(s) == s[..n]
    decreases |s|
  {
    if n < |s| {
      TrimmedIs(s[..|s| - 1], n);
      assert s[..|s| - 1][..n] == s[..n];
    } else {
      assert s[..n] == s;
    }
  }

  lemma TrimsEnds(image: string, ends: string)
    requires forall c :: c in ends ==> IsLineEnd(c)
    ensures Trimmed(image + ends) == image <==> image == "" || !IsLineEnd(image[|image| - 1])
  {
    var s := image + ends;
    forall k | |image| <= k < |s| ensures IsLineEnd(s[k]) {
      assert s[k] == ends[k - |image|];
    }
    if image == "" || !IsLineEnd(image[|image| - 1]) {
      TrimmedIs(s, |image|);
      assert s[..|image|] == image;
    }
  }

  /** The first boundary text in a payload: inside the image, or right behind it and its line ends. */
  lemma FirstBoundary(image: string, ends: string, marker: string, rest: string)
    requires (forall c :: c in ends ==> IsLineEnd(c)) && marker != "" && !IsLineEnd(marker[0])
    ensures var at := First(image + ends + marker + rest, marker);
            at.Some? && if BoundaryInside(image, ends, marker) then at.value < |image| else at.value == |image + ends|
  {
    hide FirstFrom;
    var s := image + ends + marker;
    assert OccursAt(s, marker, |image + ends|);
    OccursInPrefix(s, rest, marker, |image + ends|);
    var at := First(s + rest, marker);
    FirstExists(s + rest, marker, |image + ends|);
    OccursInPrefix(s, rest, marker, at.value);
    forall k | |image| <= k < |image + ends| ensures !OccursAt(s, marker, k) {
      assert s[k] == ends[k - |image|];
      OccursNowhereElse(s, marker, k);
    }
    if BoundaryInside(image, ends, marker) {
      var k :| 0 <= k < |image| && OccursAt(s, marker, k);
      OccursInPrefix(s, rest, marker, k);
    }
  }

  lemma OccursNowhereElse(s: string, m: string, k: nat)
    requires m != "" && k < |s| && s[k] != m[0]
    ensures !OccursAt(s, m, k)
  {
    assert k + |m| <= |s| ==> s[k..k + |m|][0] == s[k];
  }

  lemma FirstExists(s: string, m: string, i: nat)
    requires OccursAt(s, m, i)
    ensures First(s, m).Some? && First(s, m).value <= i
  {
  }

  /**
   A part without a positive Content-Length yields what precedes the first boundary text, without trailing
   line ends. That is the image exactly when no boundary text begins inside it and it does not itself end in
   a line end; the next boundary is then what is left.
   */
  lemma UnmeasuredPartIsExact(p: Part, ends: string, marker: string, rest: string)
    requires ProperUnmeasured(p, ends, marker)
    ensures var body := p.image + ends + marker + rest;
            var frame := NextOf((p.gap + marker) + ((p.headers + "\r\n\r\n") + body), marker);
            var at := First(body, marker);
            && at.Some? && at.value <= |body| && frame == Some(Frame(Trimmed(body[..at.value]), body[at.value..]))
            && (frame.value.payload == p.image <==>
                  !BoundaryInside(p.image, ends, marker)
                  && (p.image == "" || (p.image[|p.image| - 1] != '\r' && p.image[|p.image| - 1] != '\n')))
            && (!BoundaryInside(p.image, ends, marker) ==> frame.value.rest == marker + rest)
  {
    hide First, Trimmed, BoundaryInside, StatesLength;
    var body := p.image + ends + marker + rest;
    UnmeasuredFrame(p, ends, marker, rest);
    FirstBoundary(p.image, ends, marker, rest);
    TrimsEnds(p.image, ends);
    var at := First(body, marker).value;
    assert body == (p.image + ends) + (marker + rest);
    if BoundaryInside(p.image, ends, marker) {
      TrimmedShorter(body[..at]);
    } else {
      assert body[..at] == p.image + ends && body[at..] == marker + rest;
    }
  }

  lemma TrimmedShorter(s: string)
    ensures |Trimmed(s)| <= |s|
  {
  }

  lemma UnmeasuredFrame(p: Part, ends: string, marker: string, rest: string)
    requires ProperUnmeasured(p, ends, marker)
    ensures var body := p.image + ends + marker + rest;
            NextOf((p.gap + marker) + ((p.headers + HEADER_END) + body), marker) == Payload(body, 0, marker)
  {
    hide First, ContentLength, StatesLength;
    LengthIsStated(p.headers);
    var body := p.image + ends + marker + rest;
    var part := (p.headers + HEADER_END) + body;
    var stream := (p.gap + marker) + part;
    FirstIsStable(p.gap + marker, part, marker);
    assert stream[|p.gap| + |marker|..] == part;
    FirstIsStable(p.headers + HEADER_END, body, HEADER_END);
    assert part[..|p.headers|] == p.headers && part[|p.headers| + 4..] == body;
  }

  // ------------------------------------------------------------------ whole streams

  /** The first `n` frames of a stream, as far as it has them. */
  function FramesOf(stream: string, marker: string, n: nat): seq<string> {
    if n == 0 then []
    else
      match NextOf(stream, marker)
      case None => []
      case Some(f) => [f.payload] + FramesOf(f.rest, marker, n - 1)
  }

  function Images(parts: seq<Part>): seq<string> {
    seq(|parts|, i requires 0 <= i < |parts| => parts[i].image)
  }

  /** A whole stream of such parts yields exactly their images, in order. */
  lemma {:induction false} StreamIsExact(parts: seq<Part>, marker: string, rest: string)
    requires forall p :: p in parts ==> ProperPart(p, marker)
    ensures FramesOf(StreamText(parts, marker) + rest, marker, |parts|) == Images(parts)
  {
    hide ProperPart, NextOf, PartText;
    if parts != [] {
      var p, tail := parts[0], StreamText(parts[1..], marker) + rest;
      assert StreamText(parts, marker) + rest == PartText(p, marker) + tail;
      PartIsExact(p, marker, tail);
      StreamIsExact(parts[1..], marker, rest);
      assert Images(parts) == [p.image] + Images(parts[1..]);
    } else {
      assert Images(parts) == [];
    }
  }
}
