/**
 The CASTv2 message codec (optional/cast/CastChannel.cpp): protobuf varints on 64-bit values, the message
 encoder, and the decoder that walks tagged records.
 */
module CastChannel {
  import opened Bytes
  import opened Arith
  import opened Options

  // ------------------------------------------------------------------ varints

  /** Seven bits a byte, low bits first, the high bit set on all but the last. */
  function Varint(v: nat): (s: bytes)
    ensures |s| >= 1
  {
    if v < 0x80 then [v] else [v % 0x80 + 0x80] + Varint(v / 0x80)
  }

  method PutVarint(out: bytes, v: uint64) returns (r: bytes)
    ensures r == out + Varint(v)
  {
    r := out;
    var x := v;
    assert r + Varint(x) == out + Varint(v);
    while x >= 0x80
      invariant 0 <= x && r + Varint(x) == out + Varint(v)
    {
      assert r + Varint(x) == (r + [x % 0x80 + 0x80]) + Varint(x / 0x80);
      r := r + [x % 0x80 + 0x80];
      x := x / 0x80;
    }
    r := r + [x];
  }

  datatype Read = Read(value: nat, next: nat)

  /**
   The varint at `i`, of which `k` bytes are already read. The tenth byte has room for one bit only, and
   must be the last.
   */
  function VarintAt(p: bytes, i: nat, k: nat): Option<Read>
    decreases |p| - i
  {
    if i >= |p| then None
    else if p[i] < 0x80 then Some(Read(if k >= 9 then p[i] % 2 else p[i], i + 1))
    else if k >= 9 then None
    else
      match VarintAt(p, i + 1, k + 1)
      case None => None
      case Some(r) => Some(Read(p[i] - 0x80 + 0x80 * r.value, r.next))
  }

  /** `x` shifted left in 64 bits. */
  function Shl64(x: nat, shift: nat): uint64 {
    x * Pow2(shift) % TWO_64
  }

  /** The reading, continued above `acc` at `shift`. */
  function Above(acc: nat, shift: nat, r: Option<Read>): Option<Read> {
    match r
    case None => None
    case Some(x) => Some(Read(acc + x.value * Pow2(shift), x.next))
  }

  /** Bitwise or, least significant bit first. */
  function BitOr(a: nat, b: nat): nat {
    if a == 0 && b == 0 then 0 else (if a % 2 == 1 || b % 2 == 1 then 1 else 0) + 2 * BitOr(a / 2, b / 2)
  }

  lemma {:induction false} OrNothing(b: nat)
    ensures BitOr(0, b) == b
  {
    if b != 0 {
      OrNothing(b / 2);
    }
  }

  /** Bits that lie above those already set are added by the bitwise or. */
  lemma {:induction false} OrAbove(a: nat, n: nat, y: nat)
    requires a < Pow2(n)
    ensures BitOr(a, y * Pow2(n)) == a + y * Pow2(n)
  {
    if n == 0 {
      OrNothing(y);
    } else if a != 0 || y * Pow2(n) != 0 {
      var m := y * Pow2(n - 1);
      assert y * Pow2(n) == 2 * m;
      assert 2 * m % 2 == 0 && 2 * m / 2 == m;
      OrAbove(a / 2, n - 1, y);
    }
  }

  /** One byte more: the or is a sum, and stays below the next shift until the tenth byte. */
  lemma OrByte(acc: nat, x: nat, k: nat)
    requires acc < Pow2(7 * k) && x < 0x80 && k <= 9
    ensures BitOr(acc, Shl64(x, 7 * k)) == acc + Shl64(x, 7 * k)
    ensures k < 9 ==> acc + Shl64(x, 7 * k) < Pow2(7 * k + 7)
  {
    hide Pow2, BitOr, Shl64;
    ShiftedByte(x, k);
    var y := if k >= 9 then x % 2 else x;
    OrAbove(acc, 7 * k, y);
    if k < 9 {
      PowSeven(7 * k);
      MulMono(x, 0x7f, Pow2(7 * k));
    }
  }

  lemma PowZero()
    ensures Pow2(0) == 1
  {
  }

  method GetVarint(p: bytes, start: nat) returns (ok: bool, out: nat, i: nat)
    ensures ok ==> VarintAt(p, start, 0) == Some(Read(out, i)) && start < i <= |p|
    ensures !ok ==> VarintAt(p, start, 0).None?
  {
    hide Pow2, VarintAt, Shl64, Above, BitOr;
    out := 0;
    i := start;
    var shift := 0;
    ghost var k := 0;
    AboveNothing(VarintAt(p, start, 0));
    PowZero();
    while i < |p|
      invariant start <= i && k <= 9 && shift == 7 * k && out < Pow2(7 * k)
      invariant VarintAt(p, start, 0) == Above(out, shift, VarintAt(p, i, k))
      decreases |p| - i
    {
      VarintStep(p, i, k, out);
      var b := p[i];
      i := i + 1;
      OrByte(out, b % 0x80, k);
      out := BitOr(out, Shl64(b % 0x80, shift));
      if b / 0x80 == 0 {
        return true, out, i;
      }
      shift := shift + 7;
      if shift > 63 {
        return false, out, i;
      }
      k := k + 1;
    }
    VarintAtEnd(p, i, k, out);
    ok := false;
  }

  /** One byte of the loop. */
  lemma VarintStep(p: bytes, i: nat, k: nat, acc: nat)
    requires i < |p| && k <= 9
    ensures var b := p[i];
            var more := acc + Shl64(b % 0x80, 7 * k);
            && (b < 0x80 ==> Above(acc, 7 * k, VarintAt(p, i, k)) == Some(Read(more, i + 1)))
            && (b >= 0x80 && k == 9 ==> Above(acc, 7 * k, VarintAt(p, i, k)) == None)
            && (b >= 0x80 && k < 9 ==>
                  Above(acc, 7 * k, VarintAt(p, i, k)) == Above(more, 7 * k + 7, VarintAt(p, i + 1, k + 1)))
  {
    hide Pow2, Shl64, Above, VarintAt;
    var b := p[i];
    VarintByte(p, i, k);
    ShiftedByte(b % 0x80, k);
    if b < 0x80 {
      AboveSome(acc, 7 * k, if k >= 9 then b % 2 else b, i + 1);
    } else if k < 9 {
      AboveStep(acc, b, k, VarintAt(p, i + 1, k + 1));
    } else {
      AboveNone(acc, 7 * k);
    }
  }

  lemma VarintByte(p: bytes, i: nat, k: nat)
    requires i < |p| && k <= 9
    ensures p[i] < 0x80 ==> VarintAt(p, i, k) == Some(Read(if k >= 9 then p[i] % 2 else p[i], i + 1))
    ensures p[i] >= 0x80 && k == 9 ==> VarintAt(p, i, k) == None
    ensures p[i] >= 0x80 && k < 9 ==>
              VarintAt(p, i, k) ==
              match VarintAt(p, i + 1, k + 1)
              case None => None
              case Some(x) => Some(Read(p[i] - 0x80 + 0x80 * x.value, x.next))
  {
  }

  lemma AboveSome(acc: nat, shift: nat, v: nat, next: nat)
    ensures Above(acc, shift, Some(Read(v, next))) == Some(Read(acc + v * Pow2(shift), next))
  {
  }

  lemma AboveNone(acc: nat, shift: nat)
    ensures Above(acc, shift, None) == None
  {
  }

  lemma VarintAtEnd(p: bytes, i: nat, k: nat, acc: nat)
    requires i >= |p|
    ensures Above(acc, 7 * k, VarintAt(p, i, k)) == None
  {
  }

  lemma AboveNothing(r: Option<Read>)
    ensures Above(0, 0, r) == r
  {
    assert Pow2(0) == 1;
  }

  lemma PowSeven(n: nat)
    ensures Pow2(n + 7) == 0x80 * Pow2(n)
  {
    assert Pow2(n + 7) == 2 * Pow2(n + 6) && Pow2(n + 6) == 2 * Pow2(n + 5) && Pow2(n + 5) == 2 * Pow2(n + 4);
    assert Pow2(n + 4) == 2 * Pow2(n + 3) && Pow2(n + 3) == 2 * Pow2(n + 2) && Pow2(n + 2) == 2 * Pow2(n + 1);
  }

  lemma {:induction false} PowMono(a: nat, b: nat)
    requires a <= b
    ensures Pow2(a) <= Pow2(b)
    decreases b
  {
    if a < b {
      PowMono(a, b - 1);
    }
  }

  lemma PowEnds()
    ensures Pow2(0) == 1 && Pow2(64) == 2 * Pow2(63)
  {
  }

  lemma Pow63()
    ensures Pow2(56) == 0x100_0000_0000_0000 && Pow2(63) == 0x8000_0000_0000_0000 && Pow2(64) == TWO_64
  {
    hide Pow2;
    PowEnds();
    PowSeven(0);
    PowSeven(7);
    PowSeven(14);
    PowSeven(21);
    PowSeven(28);
    PowSeven(35);
    PowSeven(42);
    PowSeven(49);
    PowSeven(56);
  }

  /** Seven bits fit below bit 64 for the first nine bytes; of the tenth only the lowest survives. */
  lemma ShiftedByte(x: nat, k: nat)
    requires x < 0x80 && k <= 9
    ensures Shl64(x, 7 * k) == (if k >= 9 then x % 2 else x) * Pow2(7 * k)
  {
    hide Pow2;
    Pow63();
    if k == 9 {
      Quotient(x * Pow2(63), TWO_64, x / 2, x % 2 * Pow2(63));
    } else {
      PowMono(7 * k, 56);
      MulMono(x, 0x80, Pow2(7 * k));
      assert x * Pow2(7 * k) < TWO_64;
    }
  }

  lemma AboveStep(acc: nat, b: byte, k: nat, r: Option<Read>)
    requires b >= 0x80 && k < 9
    ensures Above(acc, 7 * k, match r case None => None case Some(x) => Some(Read(b - 0x80 + 0x80 * x.value, x.next)))
         == Above(acc + b % 0x80 * Pow2(7 * k), 7 * k + 7, r)
  {
    hide Pow2;
    PowSeven(7 * k);
    if r.Some? {
      var m, v := Pow2(7 * k), r.value.value;
      assert (b - 0x80 + 0x80 * v) * m == (b - 0x80) * m + v * (0x80 * m);
    }
  }

  /** Reading inverts writing on every 64-bit value and consumes exactly its bytes. */
  lemma {:induction false} VarintReadsBack(v: nat, k: nat, p: bytes, i: nat)
    requires k <= 9 && v < Pow2(64 - 7 * k)
    requires i + |Varint(v)| <= |p| && p[i..i + |Varint(v)|] == Varint(v)
    ensures VarintAt(p, i, k) == Some(Read(v, i + |Varint(v)|))
    decreases v
  {
    assert p[i] == Varint(v)[0];
    if k == 9 {
      assert Pow2(1) == 2;
    } else if v >= 0x80 {
      PowSeven(64 - 7 * k - 7);
      var rest := Varint(v / 0x80);
      assert p[i + 1..i + 1 + |rest|] == p[i..i + |Varint(v)|][1..] == rest;
      VarintReadsBack(v / 0x80, k + 1, p, i + 1);
    }
  }

  lemma ReadVarint(v: uint64, p: bytes, i: nat)
    requires i + |Varint(v)| <= |p| && p[i..i + |Varint(v)|] == Varint(v)
    ensures VarintAt(p, i, 0) == Some(Read(v, i + |Varint(v)|))
  {
    hide Pow2;
    Pow63();
    VarintReadsBack(v, 0, p, i);
  }

  // ------------------------------------------------------------------ the octets of a varint

  lemma QuotientTwice(v: nat, a: nat, b: nat)
    requires a > 0 && b > 0
    ensures a * b > 0 && v / a / b == v / (a * b)
  {
    Division(v, a);
    Division(v / a, b);
    var q, r := v / a / b, v / a % b;
    assert v == a * (b * q + r) + v % a == (a * b) * q + (a * r + v % a);
    MulMono(r, b - 1, a);
    Quotient(v, a * b, q, a * r + v % a);
  }

  /** Digit `k` to the base 128, with the high bit set on all digits but the last. */
  lemma {:induction false} VarintDigits(v: nat, k: nat)
    requires k < |Varint(v)|
    ensures Varint(v)[k] == v / Pow2(7 * k) % 128 + if k + 1 < |Varint(v)| then 128 else 0
  {
    hide Pow2;
    PowZero();
    if v >= 0x80 && k > 0 {
      var rest := Varint(v / 0x80);
      assert Varint(v)[1..] == rest;
      VarintDigits(v / 0x80, k - 1);
      PowSeven(7 * k - 7);
      QuotientTwice(v, 0x80, Pow2(7 * k - 7));
    }
  }

  /** No more digits than the value needs. */
  lemma {:induction false} VarintIsShortest(v: nat)
    ensures v < Pow2(7 * |Varint(v)|)
    ensures |Varint(v)| > 1 ==> v >= Pow2(7 * |Varint(v)| - 7)
  {
    hide Pow2;
    PowZero();
    PowSeven(0);
    if v >= 0x80 {
      var n := |Varint(v / 0x80)|;
      VarintIsShortest(v / 0x80);
      PowSeven(7 * n);
      PowSeven(7 * n - 7);
    }
  }

  /** The number whose digits to the base 128 are the low seven bits of the octets, lowest first. */
  function Base128(octets: bytes): nat {
    if octets == [] then 0 else octets[0] % 128 + 128 * Base128(octets[1..])
  }

  lemma ScaledRemainder(a: nat, b: nat, m: nat)
    requires a < 128 && m > 0
    ensures (a + 128 * b) % (128 * m) == a + 128 * (b % m)
  {
    Division(b, m);
    assert a + 128 * b == (128 * m) * (b / m) + (a + 128 * (b % m));
    Quotient(a + 128 * b, 128 * m, b / m, a + 128 * (b % m));
  }

  lemma {:induction false} VarintTail(p: bytes, i: nat, k: nat, n: nat)
    requires k + n <= 9 && i + n < |p| && (forall j :: i <= j < i + n ==> p[j] >= 128) && p[i + n] < 128
    ensures VarintAt(p, i, k) == Some(Read(Base128(p[i..i + n + 1]) % Pow2(64 - 7 * k), i + n + 1))
    decreases n
  {
    hide Pow2, VarintAt, Base128;
    if n == 0 {
      VarintByte(p, i, k);
      OneOctet(p[i]);
      assert p[i..i + 1] == [p[i]];
      LastByteFits(p[i], k);
    } else {
      VarintTail(p, i + 1, k + 1, n - 1);
      VarintTailStep(p, i, k, 57 - 7 * k, i + n + 1);
    }
  }

  lemma VarintTailStep(p: bytes, i: nat, k: nat, m: nat, e: nat)
    requires k < 9 && m == 57 - 7 * k && i + 1 < e <= |p| && p[i] >= 128
    requires VarintAt(p, i + 1, k + 1) == Some(Read(Base128(p[i + 1..e]) % Pow2(m), e))
    ensures VarintAt(p, i, k) == Some(Read(Base128(p[i..e]) % Pow2(m + 7), e))
  {
    hide Pow2, VarintAt, Base128;
    VarintByte(p, i, k);
    MoreOctets(p, i, e);
    TailFits(p[i], Base128(p[i + 1..e]), m);
    HighBit(p[i]);
  }

  lemma HighBit(b: byte)
    requires b >= 128
    ensures b % 128 == b - 128
  {
  }

  lemma OneOctet(b: byte)
    ensures Base128([b]) == b % 128
  {
  }

  lemma MoreOctets(p: bytes, i: nat, e: nat)
    requires i < e <= |p|
    ensures Base128(p[i..e]) == p[i] % 128 + 128 * Base128(p[i + 1..e])
  {
    assert p[i..e][1..] == p[i + 1..e];
  }

  lemma TailFits(b: byte, x: nat, m: nat)
    ensures (b % 128 + 128 * x) % Pow2(m + 7) == b % 128 + 128 * (x % Pow2(m))
  {
    hide Pow2;
    PowSeven(m);
    ScaledRemainder(b % 128, x, Pow2(m));
  }

  lemma LastByteFits(b: byte, k: nat)
    requires b < 128 && k <= 9
    ensures b % 128 % Pow2(64 - 7 * k) == if k >= 9 then b % 2 else b
  {
    hide Pow2;
    PowZero();
    if k == 9 {
      PowOne();
    } else {
      PowSeven(0);
      PowMono(7, 64 - 7 * k);
      SmallRemainder(b, Pow2(64 - 7 * k));
    }
  }

  lemma PowOne()
    ensures Pow2(1) == 2
  {
    assert Pow2(1) == 2 * Pow2(0);
  }

  lemma SmallRemainder(b: nat, m: nat)
    requires b < m
    ensures b % m == b
  {
  }

  /**
   What is read from any octets: up to nine with the high bit and one without it, as a number to the base
   128, cut to 64 bits.
   */
  lemma VarintIs(p: bytes, i: nat, n: nat)
    requires n <= 9 && i + n < |p| && (forall j :: i <= j < i + n ==> p[j] >= 128) && p[i + n] < 128
    ensures VarintAt(p, i, 0) == Some(Read(Base128(p[i..i + n + 1]) % 0x1_0000_0000_0000_0000, i + n + 1))
  {
    hide Pow2, VarintAt;
    Pow63();
    VarintTail(p, i, 0, n);
  }

  /** Nothing is read exactly when ten octets, or all there are, have the high bit. */
  lemma {:induction false} VarintRefused(p: bytes, i: nat, k: nat)
    requires k <= 9
    ensures VarintAt(p, i, k).None? <==> forall j :: i <= j < i + 10 - k && j < |p| ==> p[j] >= 128
    decreases 9 - k
  {
    if i < |p| && p[i] >= 128 && k < 9 {
      VarintRefused(p, i + 1, k + 1);
    }
  }

  // ------------------------------------------------------------------ messages

  datatype CastMessage = CastMessage(source: bytes, destination: bytes, nameSpace: bytes, payload: bytes)

  const EMPTY := CastMessage([], [], [], [])

  /** The decoder's outcomes; an oversized length that wraps past the check makes the string allocation throw. */
  datatype Outcome = Decoded(message: CastMessage) | Malformed | Thrown

  /** A string field, by its number truncated to 32 bits; other numbers are ignored. */
  function WithString(m: CastMessage, field: nat, s: bytes): CastMessage {
    match field % TWO_32
    case 2 => m.(source := s)
    case 3 => m.(destination := s)
    case 4 => m.(nameSpace := s)
    case 6 => m.(payload := s)
    case _ => m
  }

  /** Decoding from offset `i` with the fields of `m` read so far. */
  function DecodeFrom(p: bytes, i: nat, m: CastMessage): Outcome
    decreases |p| - i
  {
    if i >= |p| then Decoded(m)
    else
      match VarintAt(p, i, 0)
      case None => Malformed
      case Some(tag) =>
        if tag.next <= i then Malformed
        else
          match tag.value % 8
          case 0 =>
            (match VarintAt(p, tag.next, 0)
             case None => Malformed
             case Some(v) => if v.next <= i then Malformed else DecodeFrom(p, v.next, m))
          case 2 =>
            (match VarintAt(p, tag.next, 0)
             case None => Malformed
             case Some(size) =>
               if size.next <= i || (size.next + size.value) % TWO_64 > |p| then Malformed
               else if size.next + size.value > |p| then Thrown
               else
                 var text := p[size.next..size.next + size.value];
                 DecodeFrom(p, size.next + size.value, WithString(m, tag.value / 8, text)))
          case 5 => DecodeFrom(p, tag.next + 4, m)
          case 1 => DecodeFrom(p, tag.next + 8, m)
          case _ => Malformed
  }

  lemma {:induction false} VarintAdvances(p: bytes, i: nat, k: nat)
    ensures VarintAt(p, i, k).Some? ==> i < VarintAt(p, i, k).value.next <= |p|
    decreases |p| - i
  {
    if i < |p| && p[i] >= 0x80 && k < 9 {
      VarintAdvances(p, i + 1, k + 1);
    }
  }

  /**
   The offset decoding moves to from the record at `i`; None where it stops at one. Only fixed-width records
   are skipped without a look at the end, and so may lead past it.
   */
  function BehindRecord(p: bytes, i: nat): Option<nat> {
    match VarintAt(p, i, 0)
    case None => None
    case Some(tag) =>
      match tag.value % 8
      case 0 => (match VarintAt(p, tag.next, 0) case None => None case Some(v) => Some(v.next))
      case 2 =>
        (match VarintAt(p, tag.next, 0)
         case None => None
         case Some(size) => if size.next + size.value > |p| then None else Some(size.next + size.value))
      case 5 => Some(tag.next + 4)
      case 1 => Some(tag.next + 8)
      case _ => None
  }

  /** Where decoding from `i` stops: at a record it refuses, or at or past the end. */
  function StopsAt(p: bytes, i: nat): nat
    decreases |p| - i
  {
    if i >= |p| then i
    else
      match BehindRecord(p, i)
      case None => i
      case Some(j) => if j <= i then i else StopsAt(p, j)
  }

  /** A string record whose length, added to its offset in 64 bits, wraps back into the buffer. */
  predicate LengthWraps(p: bytes, i: nat) {
    && VarintAt(p, i, 0).Some? && VarintAt(p, i, 0).value.value % 8 == 2
    && var size := VarintAt(p, VarintAt(p, i, 0).value.next, 0);
       size.Some? && size.value.next + size.value.value >= TWO_64
           && (size.value.next + size.value.value) % TWO_64 <= |p|
  }

  /** Decoding throws exactly when the record it stops at is a string whose length wraps. */
  lemma {:induction false} ThrowsExactly(p: bytes, i: nat, m: CastMessage)
    requires |p| < TWO_64
    ensures DecodeFrom(p, i, m) == Thrown <==> StopsAt(p, i) < |p| && LengthWraps(p, StopsAt(p, i))
    decreases |p| - i
  {
    hide VarintAt, WithString;
    if i < |p| {
      VarintAdvances(p, i, 0);
      var tag := VarintAt(p, i, 0);
      if tag.Some? {
        VarintAdvances(p, tag.value.next, 0);
        var next := BehindRecord(p, i);
        if next.Some? {
          var body := VarintAt(p, tag.value.next, 0);
          if tag.value.value % 8 == 2 {
            var text := p[body.value.next..body.value.next + body.value.value];
            ThrowsExactly(p, next.value, WithString(m, tag.value.value / 8, text));
          } else {
            ThrowsExactly(p, next.value, m);
          }
        }
      }
    }
  }

  /** Decoding succeeds exactly when it stops at no record: at the end, or past it. */
  lemma {:induction false} DecodesExactly(p: bytes, i: nat, m: CastMessage)
    requires |p| < TWO_64
    ensures DecodeFrom(p, i, m).Decoded? <==> StopsAt(p, i) >= |p|
    decreases |p| - i
  {
    hide VarintAt, WithString;
    if i < |p| {
      VarintAdvances(p, i, 0);
      var tag := VarintAt(p, i, 0);
      if tag.Some? {
        VarintAdvances(p, tag.value.next, 0);
        var next := BehindRecord(p, i);
        if next.Some? {
          var body := VarintAt(p, tag.value.next, 0);
          if tag.value.value % 8 == 2 {
            var text := p[body.value.next..body.value.next + body.value.value];
            DecodesExactly(p, next.value, WithString(m, tag.value.value / 8, text));
          } else {
            DecodesExactly(p, next.value, m);
          }
        }
      }
    }
  }

  /** From `i` on the buffer consists of records that are all there. */
  predicate CompleteRecords(p: bytes, i: nat)
    decreases |p| - i
  {
    || i == |p|
    || (i < |p| && BehindRecord(p, i).Some? && i < BehindRecord(p, i).value <= |p|
        && CompleteRecords(p, BehindRecord(p, i).value))
  }

  /** A fixed-width record stands at `i` and reaches past the end. */
  predicate FixedCutShort(p: bytes, i: nat) {
    && i < |p| && VarintAt(p, i, 0).Some?
    && var tag := VarintAt(p, i, 0).value;
       (tag.value % 8 == 5 && tag.next + 4 > |p|) || (tag.value % 8 == 1 && tag.next + 8 > |p|)
  }

  /** Behind complete records only, the last one is a fixed-width record cut short. */
  predicate EndsInCutFixed(p: bytes, i: nat)
    decreases |p| - i
  {
    || FixedCutShort(p, i)
    || (i < |p| && BehindRecord(p, i).Some? && i < BehindRecord(p, i).value <= |p|
        && EndsInCutFixed(p, BehindRecord(p, i).value))
  }

  lemma {:induction false} StopsWhere(p: bytes, i: nat)
    requires i <= |p|
    ensures StopsAt(p, i) == |p| <==> CompleteRecords(p, i)
    ensures StopsAt(p, i) > |p| <==> EndsInCutFixed(p, i)
    decreases |p| - i
  {
    hide VarintAt;
    if i < |p| {
      VarintAdvances(p, i, 0);
      if VarintAt(p, i, 0).Some? {
        VarintAdvances(p, VarintAt(p, i, 0).value.next, 0);
        var next := BehindRecord(p, i);
        if next.Some? && next.value <= |p| {
          StopsWhere(p, next.value);
        }
      }
    }
  }

  /** What is decoded: exactly the buffers of complete records, and those that end in a cut fixed-width one. */
  lemma AcceptsExactly(p: bytes)
    requires |p| < TWO_64
    ensures DecodeFrom(p, 0, EMPTY).Decoded? <==> CompleteRecords(p, 0) || EndsInCutFixed(p, 0)
  {
    DecodesExactly(p, 0, EMPTY);
    StopsWhere(p, 0);
  }

  /**
   The promise to refuse every malformed buffer is kept exactly on the buffers that neither end in a
   fixed-width record cut short, which is accepted, nor come to a string whose length wraps, which throws.
   */
  lemma RefusesMalformedExactly(p: bytes)
    requires |p| < TWO_64
    ensures (!CompleteRecords(p, 0) ==> DecodeFrom(p, 0, EMPTY) == Malformed)
       <==> !EndsInCutFixed(p, 0) && !(StopsAt(p, 0) < |p| && LengthWraps(p, StopsAt(p, 0)))
  {
    DecodesExactly(p, 0, EMPTY);
    ThrowsExactly(p, 0, EMPTY);
    StopsWhere(p, 0);
  }

  /** The records that stop the decoder, by what stands at `i`. */
  lemma StopsDecoding(p: bytes, i: nat, m: CastMessage)
    requires i < |p| < 0x1_0000_0000_0000_0000
    ensures VarintAt(p, i, 0).None? ==> DecodeFrom(p, i, m) == Malformed
    ensures VarintAt(p, i, 0).Some? ==>
              var tag := VarintAt(p, i, 0).value;
              var body := VarintAt(p, tag.next, 0);
              && (tag.value % 8 in {3, 4, 6, 7} ==> DecodeFrom(p, i, m) == Malformed)
              && (tag.value % 8 in {0, 2} && body.None? ==> DecodeFrom(p, i, m) == Malformed)
              && (tag.value % 8 == 2 && body.Some? && body.value.next + body.value.value > |p| ==>
                    DecodeFrom(p, i, m) ==
                    if (body.value.next + body.value.value) % 0x1_0000_0000_0000_0000 > |p| then Malformed else Thrown)
  {
    hide VarintAt, WithString;
    VarintAdvances(p, i, 0);
    if VarintAt(p, i, 0).Some? {
      VarintAdvances(p, VarintAt(p, i, 0).value.next, 0);
    }
  }

  /** A one-byte malformed input that is accepted: the tag of a fixed32 record, without its four bytes. */
  lemma CutFixedIsAccepted()
    ensures var p := [0x0d]; !CompleteRecords(p, 0) && DecodeFrom(p, 0, EMPTY) == Decoded(EMPTY)
  {
    hide VarintAt;
    var p: bytes := [0x0d];
    FixedTag(p);
    assert DecodeFrom(p, 5, EMPTY) == Decoded(EMPTY);
    assert BehindRecord(p, 0) == Some(5);
  }

  lemma FixedTag(p: bytes)
    requires p != [] && p[0] == 0x0d
    ensures VarintAt(p, 0, 0) == Some(Read(0x0d, 1))
  {
  }

  /** One such input: a source string that announces 2^64 - 1 bytes. */
  lemma WrappedLengthThrows()
    ensures var p := [0x12] + Varint(TWO_64 - 1); DecodeFrom(p, 0, EMPTY) == Thrown
  {
    hide VarintAt, Varint;
    var p := [0x12] + Varint(TWO_64 - 1);
    TagOfSource(p);
    assert p[1..] == Varint(TWO_64 - 1);
    ReadVarint(TWO_64 - 1, p, 1);
  }

  lemma TagOfSource(p: bytes)
    requires p != [] && p[0] == 0x12
    ensures VarintAt(p, 0, 0) == Some(Read(0x12, 1))
  {
  }

  method DecodeCastMessage(p: bytes) returns (out: Outcome)
    ensures out == DecodeFrom(p, 0, EMPTY)
  {
    hide VarintAt;
    var m := EMPTY;
    var i := 0;
    while i < |p|
      invariant DecodeFrom(p, 0, EMPTY) == DecodeFrom(p, i, m)
      decreases |p| - i
    {
      var ok, tag, next := GetVarint(p, i);
      if !ok {
        return Malformed;
      }
      var field := tag / 8;
      var wt := tag % 8;
      if wt == 0 {
        var ok, v, after := GetVarint(p, next);
        if !ok {
          return Malformed;
        }
        i := after;
      } else if wt == 2 {
        var ok, sz, after := GetVarint(p, next);
        if !ok || (after + sz) % TWO_64 > |p| {
          return Malformed;
        }
        if after + sz > |p| {
          return Thrown;
        }
        m := WithString(m, field, p[after..after + sz]);
        i := after + sz;
      } else if wt == 5 {
        i := next + 4;
      } else if wt == 1 {
        i := next + 8;
      } else {
        return Malformed;
      }
    }
    out := Decoded(m);
  }

  // ------------------------------------------------------------------ records

  /** One complete protobuf record. */
  datatype Record =
    | Number(field: nat, value: uint64)
    | Text(field: nat, data: bytes)
    | Fixed32(field: nat, data: bytes)
    | Fixed64(field: nat, data: bytes)

  const MAX_FIELD := 0x2000_0000_0000_0000 // field numbers leave three bits for the wire type

  predicate ProperRecord(r: Record) {
    && r.field < MAX_FIELD
    && (r.Text? ==> |r.data| < TWO_64)
    && (r.Fixed32? ==> |r.data| == 4)
    && (r.Fixed64? ==> |r.data| == 8)
  }

  function WireType(r: Record): nat {
    match r
    case Number(_, _) => 0
    case Fixed64(_, _) => 1
    case Text(_, _) => 2
    case Fixed32(_, _) => 5
  }

  function RecordBody(r: Record): bytes {
    match r
    case Number(_, value) => Varint(value)
    case Text(_, data) => Varint(|data|) + data
    case Fixed32(_, data) => data
    case Fixed64(_, data) => data
  }

  function EncodeRecord(r: Record): (s: bytes)
    ensures |s| >= 1
  {
    Varint(r.field * 8 + WireType(r)) + RecordBody(r)
  }

  function EncodeRecords(rs: seq<Record>): bytes {
    if rs == [] then [] else EncodeRecord(rs[0]) + EncodeRecords(rs[1..])
  }

  function Effect(m: CastMessage, r: Record): CastMessage {
    match r
    case Text(field, data) => WithString(m, field, data)
    case _ => m
  }

  function EffectAll(m: CastMessage, rs: seq<Record>): CastMessage
    decreases |rs|
  {
    if rs == [] then m else EffectAll(Effect(m, rs[0]), rs[1..])
  }

  /** The tag and the offset of the body. */
  lemma TagIsRead(r: Record, p: bytes, i: nat)
    requires ProperRecord(r)
    requires i + |EncodeRecord(r)| <= |p| && p[i..i + |EncodeRecord(r)|] == EncodeRecord(r)
    ensures var tag := r.field * 8 + WireType(r);
            var j := i + |Varint(tag)|;
            && VarintAt(p, i, 0) == Some(Read(tag, j)) && tag / 8 == r.field && tag % 8 == WireType(r)
            && j + |RecordBody(r)| == i + |EncodeRecord(r)| && p[j..j + |RecordBody(r)|] == RecordBody(r)
  {
    hide Varint, VarintAt, RecordBody;
    var e := p[i..i + |EncodeRecord(r)|];
    var tag := r.field * 8 + WireType(r);
    var n := |Varint(tag)|;
    assert e[0..n] == Varint(tag) && e[n..|e|] == RecordBody(r);
    SliceOfSlice(p, i, i + |e|, 0, n);
    SliceOfSlice(p, i, i + |e|, n, |e|);
    ReadVarint(tag, p, i);
    Quotient(tag, 8, r.field, WireType(r));
  }

  /** A length-delimited body is read whole. */
  lemma TextIsRead(data: bytes, p: bytes, j: nat)
    requires |data| < TWO_64
    requires j + |Varint(|data|) + data| <= |p| && p[j..j + |Varint(|data|) + data|] == Varint(|data|) + data
    ensures var next := j + |Varint(|data|)|;
            VarintAt(p, j, 0) == Some(Read(|data|, next)) && p[next..next + |data|] == data
  {
    hide Varint, VarintAt;
    var n := |Varint(|data|)|;
    var body := p[j..j + n + |data|];
    assert body[0..n] == Varint(|data|) && body[n..|body|] == data;
    SliceOfSlice(p, j, j + |body|, 0, n);
    SliceOfSlice(p, j, j + |body|, n, |body|);
    ReadVarint(|data|, p, j);
  }

  /** A complete record is read whole, wherever it stands. */
  lemma RecordIsRead(r: Record, p: bytes, i: nat, m: CastMessage)
    requires ProperRecord(r) && |p| < TWO_64
    requires i + |EncodeRecord(r)| <= |p| && p[i..i + |EncodeRecord(r)|] == EncodeRecord(r)
    ensures DecodeFrom(p, i, m) == DecodeFrom(p, i + |EncodeRecord(r)|, Effect(m, r))
  {
    hide Varint, VarintAt, WithString, EncodeRecord;
    TagIsRead(r, p, i);
    var tag := r.field * 8 + WireType(r);
    var j := i + |Varint(tag)|;
    match r
    case Number(_, value) => ReadVarint(value, p, j);
    case Text(_, data) => TextIsRead(data, p, j);
    case Fixed32(_, _) =>
    case Fixed64(_, _) =>
  }

  /** Decoding any sequence of complete records applies them in order. */
  lemma {:induction false} RecordsAreApplied(rs: seq<Record>, p: bytes, i: nat, m: CastMessage)
    requires |p| < TWO_64 && forall r :: r in rs ==> ProperRecord(r)
    requires i <= |p| && p[i..] == EncodeRecords(rs)
    ensures DecodeFrom(p, i, m) == Decoded(EffectAll(m, rs))
    decreases |rs|
  {
    hide EncodeRecord, Effect, ProperRecord;
    if rs != [] {
      hide DecodeFrom;
      var n := |EncodeRecord(rs[0])|;
      assert p[i..][..n] == EncodeRecord(rs[0]) && p[i..][n..] == EncodeRecords(rs[1..]);
      assert p[i..i + n] == p[i..][..n] && p[i + n..] == p[i..][n..];
      RecordIsRead(rs[0], p, i, m);
      RecordsAreApplied(rs[1..], p, i + n, Effect(m, rs[0]));
    }
  }

  /** The records EncodeCastMessage writes. */
  function MessageRecords(m: CastMessage): seq<Record> {
    [Number(1, 0), Text(2, m.source), Text(3, m.destination), Text(4, m.nameSpace), Number(5, 0), Text(6, m.payload)]
  }

  /** A record of a small number: one octet of number and wire type, then its body. */
  lemma RecordOctets(f: nat, v: uint64, data: bytes)
    requires f < 16
    ensures EncodeRecord(Number(f, v)) == [8 * f] + Varint(v)
    ensures EncodeRecord(Fixed64(f, data)) == [8 * f + 1] + data
    ensures EncodeRecord(Text(f, data)) == [8 * f + 2] + Varint(|data|) + data
    ensures EncodeRecord(Fixed32(f, data)) == [8 * f + 5] + data
  {
    hide Varint;
    SmallVarint(f * 8);
    SmallVarint(f * 8 + 1);
    SmallVarint(f * 8 + 2);
    SmallVarint(f * 8 + 5);
    Regroup([], [8 * f + 2], Varint(|data|), data);
  }

  lemma SmallVarint(v: nat)
    requires v < 128
    ensures Varint(v) == [v]
  {
  }

  /** What is sent for a message, octet by octet. */
  lemma MessageOctets(m: CastMessage)
    ensures EncodeRecords(MessageRecords(m)) ==
            [0x08, 0x00] + [0x12] + Varint(|m.source|) + m.source + [0x1a] + Varint(|m.destination|) + m.destination
            + [0x22] + Varint(|m.nameSpace|) + m.nameSpace + [0x28, 0x00] + [0x32] + Varint(|m.payload|) + m.payload
  {
    hide EncodeRecord, EncodeRecords, Varint;
    var rs := MessageRecords(m);
    SmallVarint(0);
    RecordOctets(1, 0, []);
    RecordOctets(2, 0, m.source);
    RecordOctets(3, 0, m.destination);
    RecordOctets(4, 0, m.nameSpace);
    RecordOctets(5, 0, []);
    RecordOctets(6, 0, m.payload);
    NoRecords();
    forall k: nat | k < 6 ensures EncodeRecords(rs[..k + 1]) == EncodeRecords(rs[..k]) + EncodeRecord(rs[k]) {
      assert rs[..k + 1] == rs[..k] + [rs[k]];
      OneMoreRecord(rs[..k], rs[k]);
    }
    assert rs[..0] == [] && rs[..6] == rs;
    var a := EncodeRecords(rs[..1]);
    assert a == [0x08, 0x00];
    Regroup(a, [0x12], Varint(|m.source|), m.source);
    var b := a + [0x12] + Varint(|m.source|) + m.source;
    Regroup(b, [0x1a], Varint(|m.destination|), m.destination);
    var c := b + [0x1a] + Varint(|m.destination|) + m.destination;
    Regroup(c, [0x22], Varint(|m.nameSpace|), m.nameSpace);
    var d := c + [0x22] + Varint(|m.nameSpace|) + m.nameSpace;
    Regroup(d + [0x28, 0x00], [0x32], Varint(|m.payload|), m.payload);
    assert EncodeRecords(rs[..2]) == b;
    assert EncodeRecords(rs[..3]) == c;
    assert EncodeRecords(rs[..4]) == d;
    assert EncodeRecords(rs[..5]) == d + [0x28, 0x00];
  }

  lemma Regroup(a: bytes, b: bytes, c: bytes, d: bytes)
    ensures a + (b + c + d) == a + b + c + d && a + (b + (c + d)) == a + b + c + d && b + (c + d) == b + c + d
  {
  }

  method EncodeCastMessage(m: CastMessage) returns (o: bytes)
    requires |m.source| < TWO_64 && |m.destination| < TWO_64 && |m.nameSpace| < TWO_64 && |m.payload| < TWO_64
    ensures o == EncodeRecords(MessageRecords(m))
  {
    hide EncodeRecord, EncodeRecords;
    NoRecords();
    ghost var done: seq<Record> := [];
    o := PutNumber([], done, 1, 0);
    done := done + [Number(1, 0)];
    o := PutString(o, done, 2, m.source);
    done := done + [Text(2, m.source)];
    o := PutString(o, done, 3, m.destination);
    done := done + [Text(3, m.destination)];
    o := PutString(o, done, 4, m.nameSpace);
    done := done + [Text(4, m.nameSpace)];
    o := PutNumber(o, done, 5, 0);
    done := done + [Number(5, 0)];
    o := PutString(o, done, 6, m.payload);
    assert done + [Text(6, m.payload)] == MessageRecords(m);
  }

  method PutNumber(out: bytes, ghost done: seq<Record>, field: nat, v: uint64) returns (o: bytes)
    requires field < 16 && out == EncodeRecords(done)
    ensures o == EncodeRecords(done + [Number(field, v)])
  {
    hide Varint;
    o := PutVarint(out, field * 8 + 0);
    o := PutVarint(o, v);
    assert o == out + (Varint(field * 8 + 0) + Varint(v));
    OneMoreRecord(done, Number(field, v));
  }

  method PutString(out: bytes, ghost done: seq<Record>, field: nat, s: bytes) returns (o: bytes)
    requires field < 16 && |s| < TWO_64 && out == EncodeRecords(done)
    ensures o == EncodeRecords(done + [Text(field, s)])
  {
    hide Varint, EncodeRecords;
    o := PutVarint(out, field * 8 + 2);
    o := PutVarint(o, |s|);
    o := o + s;
    assert o == out + (Varint(field * 8 + 2) + (Varint(|s|) + s));
    OneMoreRecord(done, Text(field, s));
  }

  lemma NoRecords()
    ensures EncodeRecords([]) == []
  {
  }

  lemma {:induction false} OneMoreRecord(rs: seq<Record>, r: Record)
    ensures EncodeRecords(rs + [r]) == EncodeRecords(rs) + EncodeRecord(r)
  {
    hide EncodeRecord;
    if rs == [] {
      assert [r][1..] == [] && EncodeRecords([r]) == EncodeRecord(r) + EncodeRecords([]);
      assert rs + [r] == [r];
    } else {
      assert (rs + [r])[0] == rs[0] && (rs + [r])[1..] == rs[1..] + [r];
      OneMoreRecord(rs[1..], r);
    }
  }

  lemma {:induction false} OneMoreEffect(m: CastMessage, rs: seq<Record>, r: Record)
    ensures EffectAll(m, rs + [r]) == Effect(EffectAll(m, rs), r)
    decreases |rs|
  {
    hide Effect;
    if rs == [] {
      assert [r][1..] == [] && rs + [r] == [r];
      assert EffectAll(m, [r]) == EffectAll(Effect(m, r), []);
    } else {
      assert (rs + [r])[0] == rs[0] && (rs + [r])[1..] == rs[1..] + [r];
      OneMoreEffect(Effect(m, rs[0]), rs[1..], r);
    }
  }

  /** A record the decoder acts on: a string whose number, in 32 bits, is one of the message's. */
  predicate Known(r: Record) {
    r.Text? && r.field % TWO_32 in {2, 3, 4, 6}
  }

  /** A record leaves every message as it is exactly when it is not known. */
  lemma UnknownAreIgnored(r: Record)
    ensures (forall m :: Effect(m, r) == m) <==> !Known(r)
  {
    if Known(r) {
      var other: bytes := r.data + [0];
      var m := CastMessage(other, other, other, other);
      assert other != r.data;
      assert Effect(m, r) != m;
    }
  }

  /** The known records of a list, in order. */
  function OnlyKnown(rs: seq<Record>): seq<Record> {
    if rs == [] then [] else (if Known(rs[0]) then [rs[0]] else []) + OnlyKnown(rs[1..])
  }

  lemma {:induction false} OnlyKnownMatter(m: CastMessage, rs: seq<Record>)
    ensures EffectAll(m, rs) == EffectAll(m, OnlyKnown(rs))
    decreases |rs|
  {
    hide Known, Effect;
    if rs != [] {
      UnknownAreIgnored(rs[0]);
      OnlyKnownMatter(Effect(m, rs[0]), rs[1..]);
      if Known(rs[0]) {
        assert OnlyKnown(rs)[0] == rs[0] && OnlyKnown(rs)[1..] == OnlyKnown(rs[1..]);
      } else {
        assert OnlyKnown(rs) == OnlyKnown(rs[1..]) && Effect(m, rs[0]) == m;
      }
    }
  }

  /**
   Decoding inverts encoding on all strings, also when complete records of unknown numbers and of any
   wire type stand before, between or after the message's own: only the known records count.
   */
  lemma DecodeInvertsEncode(m: CastMessage, rs: seq<Record>)
    requires forall r :: r in rs ==> ProperRecord(r)
    requires OnlyKnown(rs) == OnlyKnown(MessageRecords(m))
    requires |EncodeRecords(rs)| < TWO_64
    ensures DecodeFrom(EncodeRecords(rs), 0, EMPTY) == Decoded(m)
  {
    hide EncodeRecord, DecodeFrom, ProperRecord;
    var p := EncodeRecords(rs);
    assert p[0..] == p;
    RecordsAreApplied(rs, p, 0, EMPTY);
    OnlyKnownMatter(EMPTY, rs);
    OnlyKnownMatter(EMPTY, MessageRecords(m));
    MessageEffect(m);
  }

  lemma MessageEffect(m: CastMessage)
    ensures EffectAll(EMPTY, MessageRecords(m)) == m
  {
    hide EffectAll;
    var rs := MessageRecords(m);
    assert EffectAll(EMPTY, rs[..0]) == EMPTY by { NoEffect(EMPTY, rs[..0]); }
    var k := 0;
    while k < 6
      invariant 0 <= k <= 6
      invariant var e := EffectAll(EMPTY, rs[..k]);
                && e.source == (if k > 1 then m.source else [])
                    && e.destination == (if k > 2 then m.destination else [])
                && e.nameSpace == (if k > 3 then m.nameSpace else []) && e.payload == (if k > 5 then m.payload else [])
    {
      OneMoreEffect(EMPTY, rs[..k], rs[k]);
      assert rs[..k + 1] == rs[..k] + [rs[k]];
      k := k + 1;
    }
    assert rs[..6] == rs;
  }

  lemma NoEffect(m: CastMessage, rs: seq<Record>)
    requires rs == []
    ensures EffectAll(m, rs) == m
  {
  }

  /** Field numbers are compared in 32 bits: number 2^32 + 2 is taken for the source. */
  lemma FieldNumberWraps(m: CastMessage, s: bytes)
    ensures Effect(m, Text(TWO_32 + 2, s)) == m.(source := s)
  {
  }
}
