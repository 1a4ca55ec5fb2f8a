/** Octets, the fixed-width unsigned integers of the sources, and their big-endian wire forms. */
module Bytes {
  import opened Arith

  type byte = b: int | 0 <= b < 0x100
  type uint16 = n: int | 0 <= n < 0x1_0000
  type uint32 = n: int | 0 <= n < 0x1_0000_0000
  type uint64 = n: int | 0 <= n < 0x1_0000_0000_0000_0000
  type bytes = seq<byte>

  const TWO_8 := 0x100
  const TWO_16 := 0x1_0000
  const TWO_32 := 0x1_0000_0000
  const TWO_64 := 0x1_0000_0000_0000_0000

  function Min(a: int, b: int): int {
    if a < b then a else b
  }

  function BE16(v: uint16): (s: bytes)
    ensures |s| == 2
  {
    [v / 0x100, v % 0x100]
  }

  function BE32(v: uint32): (s: bytes)
    ensures |s| == 4
  {
    BE16(v / 0x1_0000) + BE16(v % 0x1_0000)
  }

  function GetBE16(s: bytes, at: nat): uint16
    requires at + 2 <= |s|
  {
    0x100 * s[at] as int + s[at + 1] as int
  }

  function GetBE32(s: bytes, at: nat): uint32
    requires at + 4 <= |s|
  {
    0x1_0000 * GetBE16(s, at) as int + GetBE16(s, at + 2) as int
  }

  /** Reading inside a part of a buffer is reading the buffer at the shifted place. */
  lemma GetInSlice(s: bytes, lo: nat, hi: nat, at: nat)
    requires lo <= hi <= |s|
    ensures lo + at + 2 <= hi ==> GetBE16(s[lo..hi], at) == GetBE16(s, lo + at)
    ensures lo + at + 4 <= hi ==> GetBE32(s[lo..hi], at) == GetBE32(s, lo + at)
  {
  }

  lemma SliceOfSlice<T>(s: seq<T>, lo: nat, hi: nat, a: nat, b: nat)
    requires lo <= hi <= |s| && a <= b <= hi - lo
    ensures s[lo..hi][a..b] == s[lo + a..lo + b]
  {
    var x, y := s[lo..hi][a..b], s[lo + a..lo + b];
    assert |x| == |y| && forall k :: 0 <= k < |x| ==> x[k] == y[k];
  }

  /** Reading back what was written, wherever the field sits in a longer buffer. */
  lemma ReadBE16(v: uint16, s: bytes, at: nat)
    requires at + 2 <= |s| && s[at..at + 2] == BE16(v)
    ensures GetBE16(s, at) == v
  {
    assert s[at] == s[at..at + 2][0] && s[at + 1] == s[at..at + 2][1];
  }

  lemma ReadBE32(v: uint32, s: bytes, at: nat)
    requires at + 4 <= |s| && s[at..at + 4] == BE32(v)
    ensures GetBE32(s, at) == v
  {
    assert s[at..at + 2] == s[at..at + 4][..2] == BE16(v / 0x1_0000);
    assert s[at + 2..at + 4] == s[at..at + 4][2..] == BE16(v % 0x1_0000);
    ReadBE16(v / 0x1_0000, s, at);
    ReadBE16(v % 0x1_0000, s, at + 2);
  }

  /** Writing back what was read: the four bytes are determined by the integer. */
  lemma WriteBE16(s: bytes, at: nat)
    requires at + 2 <= |s|
    ensures BE16(GetBE16(s, at)) == s[at..at + 2]
  {
  }

  lemma WriteBE32(s: bytes, at: nat)
    requires at + 4 <= |s|
    ensures BE32(GetBE32(s, at)) == s[at..at + 4]
  {
    WriteBE16(s, at);
    WriteBE16(s, at + 2);
    assert s[at..at + 4] == s[at..at + 2] + s[at + 2..at + 4];
  }

  /** The number a byte string spells, most significant octet first. */
  function Spelled(s: bytes): nat {
    if s == [] then 0 else 0x100 * Spelled(s[..|s| - 1]) + s[|s| - 1] as int
  }

  /** The wire forms, octet by octet. */
  lemma WireOctets(v: uint16, w: uint32)
    ensures BE16(v) == [v / 0x100, v % 0x100]
    ensures BE32(w) == [w / 0x100_0000, w / 0x1_0000 % 0x100, w / 0x100 % 0x100, w % 0x100]
  {
    Quotient4(w);
  }

  lemma Quotient4(w: uint32)
    ensures w / 0x1_0000 / 0x100 == w / 0x100_0000 && w % 0x1_0000 / 0x100 == w / 0x100 % 0x100
    ensures w % 0x1_0000 % 0x100 == w % 0x100
  {
    var h, l := w / 0x1_0000, w % 0x1_0000;
    Division(w, 0x1_0000);
    Division(h, 0x100);
    Division(l, 0x100);
    Quotient(w, 0x100_0000, h / 0x100, h % 0x100 * 0x1_0000 + l);
    Quotient(w, 0x100, h * 0x100 + l / 0x100, l % 0x100);
    Quotient(h * 0x100 + l / 0x100, 0x100, h, l / 0x100);
  }

  /** What is read is what the octets spell, wherever they stand. */
  lemma ReadSpells(s: bytes, at: nat)
    ensures at + 2 <= |s| ==> GetBE16(s, at) == 0x100 * s[at] as int + s[at + 1] as int
    ensures at + 4 <= |s| ==>
              GetBE32(s, at) ==
              0x100_0000 * s[at] as int + 0x1_0000 * s[at + 1] as int + 0x100 * s[at + 2] as int + s[at + 3] as int
  {
  }

  /** A word more. */
  lemma SpelledWord(a: bytes, w: bytes)
    requires |w| == 4
    ensures Spelled(a + w) == Spelled(a) * TWO_32 + GetBE32(w, 0)
  {
    var s := a + w;
    assert s[..|s| - 1] == a + w[..3] && (a + w[..3])[..|a| + 2] == a + w[..2];
    assert (a + w[..2])[..|a| + 1] == a + w[..1] && (a + w[..1])[..|a|] == a;
    SpelledLast(a, w[0]);
    SpelledLast(a + w[..1], w[1]);
    SpelledLast(a + w[..2], w[2]);
    SpelledLast(a + w[..3], w[3]);
    assert a + w[..1] == a + [w[0]] && a + w[..2] == (a + w[..1]) + [w[1]];
    assert a + w[..3] == (a + w[..2]) + [w[2]] && s == (a + w[..3]) + [w[3]];
  }

  lemma SpelledLast(a: bytes, b: byte)
    ensures Spelled(a + [b]) == 0x100 * Spelled(a) + b
  {
    assert (a + [b])[..|a|] == a;
  }

  /** Bitwise exclusive or, least significant bit first. */
  function Xor(a: nat, b: nat): nat {
    if a == 0 && b == 0 then 0 else (a % 2 + b % 2) % 2 + 2 * Xor(a / 2, b / 2)
  }

  function Pow2(n: nat): (p: nat)
    ensures p >= 1
  {
    if n == 0 then 1 else 2 * Pow2(n - 1)
  }

  lemma {:induction false} XorBound(a: nat, b: nat, n: nat)
    requires a < Pow2(n) && b < Pow2(n)
    ensures Xor(a, b) < Pow2(n)
  {
    if n > 0 && (a != 0 || b != 0) {
      XorBound(a / 2, b / 2, n - 1);
    }
  }

  lemma XorStep(bit: nat, half: nat, b: nat)
    requires bit < 2
    ensures Xor(bit + 2 * half, b) == (bit + b % 2) % 2 + 2 * Xor(half, b / 2)
  {
    var a := bit + 2 * half;
    assert a % 2 == bit && a / 2 == half;
  }

  lemma FlipTwice(p: nat, q: nat)
    requires p < 2 && q < 2
    ensures ((p + q) % 2 + q) % 2 == p
  {
  }

  lemma {:induction false} XorInvolution(a: nat, b: nat)
    ensures Xor(Xor(a, b), b) == a
  {
    if a != 0 || b != 0 {
      hide Xor;
      var p, q := a % 2, b % 2;
      XorStep(p, a / 2, b);
      XorStep((p + q) % 2, Xor(a / 2, b / 2), b);
      FlipTwice(p, q);
      XorInvolution(a / 2, b / 2);
    }
  }

  /** Bit by bit, it is one where the operands differ. */
  lemma {:induction false} XorBit(a: nat, b: nat, i: nat)
    ensures Xor(a, b) / Pow2(i) % 2 == (if a / Pow2(i) % 2 == b / Pow2(i) % 2 then 0 else 1)
  {
    hide Xor, Pow2;
    if i == 0 {
      XorParity(a, b);
    } else {
      XorBit(a / 2, b / 2, i - 1);
      HalfShift(a, i);
      HalfShift(b, i);
      HalfShift(Xor(a, b), i);
      XorHalf(a, b);
    }
  }

  lemma XorParity(a: nat, b: nat)
    ensures Pow2(0) == 1 && Xor(a, b) % 2 == (if a % 2 == b % 2 then 0 else 1)
  {
  }

  lemma XorHalf(a: nat, b: nat)
    ensures Xor(a, b) / 2 == Xor(a / 2, b / 2)
  {
  }

  lemma HalfShift(a: nat, i: nat)
    requires i > 0
    ensures a / Pow2(i) == a / 2 / Pow2(i - 1)
  {
    var p := Pow2(i - 1);
    var q, r := a / 2 / p, a / 2 % p;
    assert a / 2 == p * q + r;
    assert a == 2 * (p * q + r) + a % 2 == Pow2(i) * q + (2 * r + a % 2);
    Quotient(a, Pow2(i), q, 2 * r + a % 2);
  }

  /** `a` XOR `b` on octets. */
  function Xor8(a: byte, b: byte): byte {
    assert Pow2(8) == 256;
    XorBound(a, b, 8);
    Xor(a, b)
  }

  lemma Xor8Involution(a: byte, b: byte)
    ensures Xor8(Xor8(a, b), b) == a
  {
    XorInvolution(a, b);
  }

  lemma Xor8Injective(a: byte, b: byte, m: byte)
    ensures Xor8(a, m) == Xor8(b, m) <==> a == b
  {
    XorInvolution(a, m);
    XorInvolution(b, m);
  }

  function Zeros(n: nat): bytes {
    seq<byte>(n, _ => 0)
  }

  /** Concatenation of a list of byte strings, in order. */
  function Join(parts: seq<bytes>): bytes {
    if parts == [] then [] else parts[0] + Join(parts[1..])
  }

  lemma {:induction false} JoinAppend(a: seq<bytes>, b: seq<bytes>)
    ensures Join(a + b) == Join(a) + Join(b)
  {
    if a == [] {
      assert a + b == b;
    } else {
      assert (a + b)[0] == a[0] && (a + b)[1..] == a[1..] + b;
      JoinAppend(a[1..], b);
    }
  }

  lemma JoinSnoc(a: seq<bytes>, x: bytes)
    ensures Join(a + [x]) == Join(a) + x
  {
    JoinAppend(a, [x]);
    assert Join([x]) == x;
  }
}
