/**
 The Base64 encoder of the WebDAV client (optional/webdav/WebDavClient.cpp): a shift register of 32 signed
 bits that is never cleared, against the three-octet groups of section 4 of RFC 4648.
 */
module WebDavBase64 {
  import opened Arith
  import opened Bytes
  import opened Options

  const UPPER := "ABCDEFGHIJKLMNOPQRSTUVWXYZ"
  const LOWER := "abcdefghijklmnopqrstuvwxyz"
  const NUMERALS := "0123456789"
  const TABLE := UPPER + LOWER + NUMERALS + "+/"

  type int32 = n: int | -0x8000_0000 <= n < 0x8000_0000

  lemma TableHas64()
    ensures |TABLE| == 64
  {
  }

  function Digit(n: nat): char
    requires n < 64
  {
    TableHas64();
    TABLE[n]
  }

  // ------------------------------------------------------------------ definition

  function Group(a: byte, b: byte, c: byte): string {
    [Digit(a / 4), Digit(a % 4 * 16 + b / 16), Digit(b % 16 * 4 + c / 64), Digit(c % 64)]
  }

  /** Three octets make four digits; one or two left over are padded. */
  function Encoded(s: bytes): string {
    if s == [] then ""
    else if |s| == 1 then [Digit(s[0] / 4), Digit(s[0] % 4 * 16), '=', '=']
    else if |s| == 2 then [Digit(s[0] / 4), Digit(s[0] % 4 * 16 + s[1] / 16), Digit(s[1] % 16 * 4), '=']
    else Group(s[0], s[1], s[2]) + Encoded(s[3..])
  }

  // ------------------------------------------------------------------ the bit stream

  /** The octet at `i`, and zero bits behind the end. */
  function OctetAt(s: bytes, i: nat): byte {
    if i < |s| then s[i] else 0
  }

  /** Six bits of the stream, from bit 6 * j on. */
  function Sextet(s: bytes, j: nat): (r: nat)
    ensures r < 64
  {
    var i := j / 4 * 3;
    match j % 4
    case 0 => OctetAt(s, i) / 4
    case 1 => OctetAt(s, i) % 4 * 16 + OctetAt(s, i + 1) / 16
    case 2 => OctetAt(s, i + 1) % 16 * 4 + OctetAt(s, i + 2) / 64
    case _ => OctetAt(s, i + 2) % 64
  }

  function Digits(s: bytes, n: nat): string {
    seq(n, j requires 0 <= j => Digit(Sextet(s, j)))
  }

  function Padding(n: nat): string {
    seq(n, _ => '=')
  }

  /** As many digits as there are started sextets. */
  function DigitCount(n: nat): nat {
    (8 * n + 5) / 6
  }

  /** As many '=' as complete a group of four characters. */
  function PadCount(n: nat): nat {
    if n % 4 == 0 then 0 else 4 - n % 4
  }

  lemma CountStep(n: nat)
    ensures DigitCount(n + 3) == DigitCount(n) + 4 && PadCount(DigitCount(n + 3)) == PadCount(DigitCount(n))
  {
    var a, d := 8 * n + 5, DigitCount(n);
    Division(a, 6);
    Quotient(a + 24, 6, d + 4, a % 6);
    PadStep(d);
  }

  lemma PadStep(d: nat)
    ensures PadCount(d + 4) == PadCount(d)
  {
    AddMultiple(d, 4, 1);
  }

  lemma TailCounts()
    ensures DigitCount(0) == 0 && DigitCount(1) == 2 && DigitCount(2) == 3
    ensures PadCount(0) == 0 && PadCount(2) == 2 && PadCount(3) == 1
  {
    Quotient(5, 6, 0, 5);
    Quotient(13, 6, 2, 1);
    Quotient(21, 6, 3, 3);
  }

  /** The groups are the bit stream in sextets, padded to a multiple of four. */
  lemma {:induction false} GroupsAreSextets(s: bytes)
    ensures Encoded(s) == Digits(s, DigitCount(|s|)) + Padding(PadCount(DigitCount(|s|)))
    decreases |s|
  {
    hide Encoded, Group, Digits, Padding, DigitCount, PadCount;
    if |s| >= 3 {
      CountStep(|s| - 3);
      GroupsAreSextets(s[3..]);
      var n := DigitCount(|s| - 3);
      DigitsShift(s, n);
      EncodedStep(s);
      assert Group(s[0], s[1], s[2]) + Digits(s[3..], n) + Padding(PadCount(n))
          == Group(s[0], s[1], s[2]) + (Digits(s[3..], n) + Padding(PadCount(n)));
    } else {
      TailIsSextets(s);
    }
  }

  lemma EncodedStep(s: bytes)
    requires |s| >= 3
    ensures Encoded(s) == Group(s[0], s[1], s[2]) + Encoded(s[3..])
  {
  }

  lemma TailIsSextets(s: bytes)
    requires |s| < 3
    ensures Encoded(s) == Digits(s, DigitCount(|s|)) + Padding(PadCount(DigitCount(|s|)))
  {
    hide Digit, DigitCount, PadCount, Sextet, Digits;
    TailCounts();
    FewDigits(s);
    if s != [] {
      hide Encoded;
      GroupIs(s);
      assert Padding(2) == "==" && Padding(1) == "=";
    }
  }

  lemma FewDigits(s: bytes)
    ensures Digits(s, 0) == ""
    ensures Digits(s, 2) == [Digit(Sextet(s, 0)), Digit(Sextet(s, 1))]
    ensures Digits(s, 3) == [Digit(Sextet(s, 0)), Digit(Sextet(s, 1)), Digit(Sextet(s, 2))]
  {
    hide Digit, Sextet;
  }

  lemma DigitsShift(s: bytes, n: nat)
    requires |s| >= 3
    ensures Digits(s, n + 4) == Group(s[0], s[1], s[2]) + Digits(s[3..], n)
  {
    hide Digit;
    var a, b := Digits(s, n + 4), Group(s[0], s[1], s[2]) + Digits(s[3..], n);
    forall j | 0 <= j < n + 4 ensures a[j] == b[j] {
      if j >= 4 {
        SextetShift(s, j - 4);
      }
    }
  }

  lemma SextetShift(s: bytes, j: nat)
    requires |s| >= 3
    ensures Sextet(s, j + 4) == Sextet(s[3..], j)
  {
    assert (j + 4) / 4 * 3 == j / 4 * 3 + 3 && (j + 4) % 4 == j % 4;
    forall i: nat ensures OctetAt(s, i + 3) == OctetAt(s[3..], i) {
    }
  }

  // ------------------------------------------------------------------ the shift register

  /** Reduction to 32 signed bits. */
  function Wrap32(x: int): (r: int32)
    ensures (r - x) % TWO_32 == 0
  {
    (x + 0x8000_0000) % TWO_32 - 0x8000_0000
  }

  /** A shift right of a signed number, and its six low bits. */
  function SixBits(val: int, shift: nat): nat {
    val / Pow2(shift) % 64
  }

  /** The low twelve bits of the register: all of the last octet and four bits of the one before. */
  function Last12(s: bytes, k: nat): nat {
    Twelve(Back(s, k, 2), Back(s, k, 1))
  }

  function Twelve(before: byte, last: byte): nat {
    before as int % 0x10 * 0x100 + last as int
  }

  function Back(s: bytes, k: nat, d: nat): byte {
    if d <= k && k - d < |s| then s[k - d] else 0
  }

  /** The register after `k` octets, as far as it will be read. */
  predicate Register(s: bytes, k: nat, val: int) {
    val % 0x1000 == Last12(s, k)
  }

  lemma Low12(x: int)
    ensures Wrap32(x) % 0x1000 == x % 0x1000
  {
    var r := Wrap32(x);
    var q := (r - x) / TWO_32;
    assert r == x + 0x1000 * (0x10_0000 * q);
    AddMultiple(x, 0x1000, 0x10_0000 * q);
  }

  lemma ShiftTwelve(val: int, b: byte, p: byte, c: byte)
    requires val % 0x1000 == Twelve(b, p)
    ensures (val * 0x100 + c) % 0x1000 == Twelve(p, c)
  {
    Division(val, 0x1000);
    Division(p, 0x10);
    var q := val / 0x1000 * 0x100 + b as int % 0x10 * 0x10 + p as int / 0x10;
    assert val * 0x100 + c == 0x1000 * q + Twelve(p, c);
    Quotient(val * 0x100 + c, 0x1000, q, Twelve(p, c));
  }

  lemma ShiftIn(s: bytes, k: nat, val: int)
    requires k < |s| && Register(s, k, val)
    ensures Register(s, k + 1, Wrap32(Wrap32(val * 0x100) + s[k]))
  {
    hide Wrap32, Twelve;
    Low12(val * 0x100);
    Low12(Wrap32(val * 0x100) + s[k]);
    ModAdd(Wrap32(val * 0x100), s[k], 0x1000);
    ModAdd(val * 0x100, s[k], 0x1000);
    ShiftTwelve(val, Back(s, k, 2), Back(s, k, 1), s[k]);
  }

  lemma SixOfTwelve(val: int, u: nat, d: nat)
    requires u > 0 && u * d == 64
    ensures val / u % 64 == val % 0x1000 / u % 64
  {
    var q, m := val / 0x1000, val % 0x1000;
    Division(val, 0x1000);
    Division(m, u);
    assert u * (64 * (d * q)) == 64 * ((u * d) * q);
    assert val == u * (64 * (d * q) + m / u) + m % u;
    Quotient(val, u, 64 * (d * q) + m / u, m % u);
    AddMultiple(m / u, 64, d * q);
  }

  lemma SixBitsAre(val: int, shift: nat)
    requires shift == 0 || shift == 2 || shift == 4 || shift == 6
    ensures SixBits(val, shift) == val % 0x1000 / (if shift == 0 then 1 else if shift == 2 then 4
            else if shift == 4 then 16 else 64) % 64
  {
    assert Pow2(2) == 4 && Pow2(4) == 16 && Pow2(6) == 64 by { assert Pow2(1) == 2 && Pow2(3) == 8 && Pow2(5) == 32; }
    if shift == 0 { SixOfTwelve(val, 1, 64); }
    else if shift == 2 { SixOfTwelve(val, 4, 16); }
    else if shift == 4 { SixOfTwelve(val, 16, 4); }
    else { SixOfTwelve(val, 64, 1); }
  }

  lemma TwelveParts(b: byte, c: byte)
    ensures Twelve(b, c) / 1 % 64 == c % 64 && Twelve(b, c) / 4 % 64 == c / 4
    ensures Twelve(b, c) / 16 % 64 == b % 4 * 16 + c / 16 && Twelve(b, c) / 64 % 64 == b % 16 * 4 + c / 64
  {
    var w, h, l := Twelve(b, c), b as int % 16, c as int;
    Division(l, 4);
    Division(l, 16);
    Division(l, 64);
    Quotient(w, 4, 64 * h + l / 4, l % 4);
    Quotient(w, 16, 16 * h + l / 16, l % 16);
    Quotient(w, 64, 4 * h + l / 64, l % 64);
    Quotient(w / 4, 64, h, l / 4);
    Quotient(w / 16, 64, h / 4, h % 4 * 16 + l / 16);
    Quotient(w / 64, 64, 0, 4 * h + l / 64);
    LowBits(b);
  }

  lemma LowBits(b: byte)
    ensures b as int % 16 % 4 == b % 4
  {
  }

  /** Where a sextet starts, told from the bits left of it. */
  lemma SextetPlace(k: nat, j: nat, bits: int)
    requires 8 * k == 6 * j + bits + 6
    ensures bits == 0 ==> j % 4 == 3 && k == j / 4 * 3 + 3
    ensures bits == 2 ==> j % 4 == 0 && k == j / 4 * 3 + 1
    ensures bits == 4 ==> j % 4 == 1 && k == j / 4 * 3 + 2
    ensures bits == 6 ==> j % 4 == 2 && k == j / 4 * 3 + 3
    ensures bits == -4 ==> j % 4 == 1 && k == j / 4 * 3 + 1
    ensures bits == -2 ==> j % 4 == 2 && k == j / 4 * 3 + 2
  {
    Division(j, 4);
  }

  /** Six bits of the register, taken at 0, 2, 4 or 6, are the next sextet. */
  lemma RegisterHolds(s: bytes, k: nat, j: nat, bits: nat, val: int)
    requires 1 <= k <= |s| && Register(s, k, val)
    requires bits <= 6 && 8 * k == 6 * j + bits + 6
    ensures SixBits(val, bits) == Sextet(s, j)
  {
    hide SixBits, Twelve;
    assert bits == 0 || bits == 2 || bits == 4 || bits == 6;
    SixBitsAre(val, bits);
    TwelveParts(Back(s, k, 2), Back(s, k, 1));
    SextetPlace(k, j, bits);
  }

  /** The left-over bits, with zeros behind them, are the last sextet. */
  lemma LastSextet(s: bytes, j: nat, bits: int, val: int)
    requires Register(s, |s|, val)
    requires -6 < bits < 0 && 8 * |s| == 6 * j + bits + 6
    ensures bits + 8 <= 6
    ensures SixBits(Wrap32(val * 0x100), bits + 8) == Sextet(s, j)
  {
    hide SixBits, Twelve, Wrap32;
    assert bits == -4 || bits == -2;
    var p, c := Back(s, |s|, 2), Back(s, |s|, 1);
    Low12(val * 0x100);
    ShiftTwelve(val, p, c, 0);
    SixBitsAre(Wrap32(val * 0x100), bits + 8);
    TwelveParts(c, 0);
    SextetPlace(|s|, j, bits);
  }

  method Base64(s: bytes) returns (out: string)
    ensures out == Encoded(s)
  {
    hide Digit, Sextet, SixBits, Wrap32, Register, Encoded, Digits, Padding, DigitCount, PadCount;
    out := "";
    var val: int32, bits := 0, -6;
    var k := 0;
    EmptyRegister(s);
    assert out == Digits(s, 0) by { NoDigits(s); }
    while k < |s|
      invariant 0 <= k <= |s| && -6 <= bits < 0 && 8 * k == 6 * |out| + bits + 6
      invariant Register(s, k, val)
      invariant out == Digits(s, |out|)
    {
      ShiftIn(s, k, val);
      val := Wrap32(Wrap32(val * 0x100) + s[k]);
      k := k + 1;
      bits := bits + 8;
      while bits >= 0
        invariant -6 <= bits <= 6 && 8 * k == 6 * |out| + bits + 6
        invariant out == Digits(s, |out|)
      {
        RegisterHolds(s, k, |out|, bits, val);
        OneMoreDigit(s, |out|);
        out := out + [Digit(SixBits(val, bits))];
        bits := bits - 6;
      }
    }
    ghost var whole := |out|;
    if bits > -6 {
      LastSextet(s, |out|, bits, val);
      OneMoreDigit(s, |out|);
      out := out + [Digit(SixBits(Wrap32(val * 0x100), bits + 8))];
    }
    CountIs(|s|, whole, bits);
    GroupsAreSextets(s);
    out := PadToFour(out);
  }

  lemma CountIs(n: nat, whole: nat, bits: int)
    requires -6 <= bits < 0 && 8 * n == 6 * whole + bits + 6
    ensures DigitCount(n) == if bits > -6 then whole + 1 else whole
  {
    Quotient(8 * n + 5, 6, if bits > -6 then whole + 1 else whole, if bits > -6 then bits + 5 else 5);
  }

  method PadToFour(digits: string) returns (out: string)
    ensures out == digits + Padding(PadCount(|digits|))
  {
    out := digits;
    assert out == digits + Padding(0);
    while |out| % 4 != 0
      invariant 0 <= |out| - |digits| <= PadCount(|digits|)
      invariant out == digits + Padding(|out| - |digits|)
      decreases PadCount(|digits|) - (|out| - |digits|)
    {
      assert Padding(|out| - |digits|) + ['='] == Padding(|out| + 1 - |digits|);
      out := out + ['='];
    }
  }

  lemma EmptyRegister(s: bytes)
    ensures Register(s, 0, 0)
  {
  }

  lemma NoDigits(s: bytes)
    ensures Digits(s, 0) == ""
  {
  }

  lemma OneMoreDigit(s: bytes, n: nat)
    ensures Digits(s, n + 1) == Digits(s, n) + [Digit(Sextet(s, n))]
  {
    hide Digit, Sextet;
  }

  // ------------------------------------------------------------------ what the text is for

  /** Four characters for every started group of three octets. */
  lemma {:induction false} EncodedLength(s: bytes)
    ensures |Encoded(s)| == (|s| + 2) / 3 * 4
    decreases |s|
  {
    hide Digit;
    if |s| >= 3 {
      EncodedLength(s[3..]);
    }
  }

  /** The number a digit stands for. */
  function ValueOf(c: char): (r: Option<nat>)
    ensures r.Some? ==> r.value < 64
  {
    if 'A' <= c <= 'Z' then Some(c as int - 'A' as int)
    else if 'a' <= c <= 'z' then Some(c as int - 'a' as int + 26)
    else if '0' <= c <= '9' then Some(c as int - '0' as int + 52)
    else if c == '+' then Some(62)
    else if c == '/' then Some(63)
    else None
  }

  lemma UpperAt(n: nat)
    requires n < 26
    ensures UPPER[n] as int == 'A' as int + n
  {
  }

  lemma LowerAt(n: nat)
    requires n < 26
    ensures LOWER[n] as int == 'a' as int + n
  {
  }

  lemma NumeralAt(n: nat)
    requires n < 10
    ensures NUMERALS[n] as int == '0' as int + n
  {
  }

  lemma TableAt(n: nat)
    requires n < 64
    ensures Digit(n) == if n < 26 then UPPER[n] else if n < 52 then LOWER[n - 26]
                        else if n < 62 then NUMERALS[n - 52] else "+/"[n - 62]
  {
  }

  lemma DigitIs(n: nat)
    requires n < 64
    ensures Digit(n) as int == if n < 26 then 'A' as int + n else if n < 52 then 'a' as int + n - 26
                               else if n < 62 then '0' as int + n - 52 else if n == 62 then '+' as int else '/' as int
  {
    hide Digit;
    TableAt(n);
    if n < 26 {
      UpperAt(n);
    } else if n < 52 {
      LowerAt(n - 26);
    } else if n < 62 {
      NumeralAt(n - 52);
    }
  }

  lemma ValueOfDigit(n: nat)
    requires n < 64
    ensures ValueOf(Digit(n)) == Some(n) && Digit(n) != '='
  {
    hide Digit;
    DigitIs(n);
  }

  /** One group of a receiver's decoder: one, two or three octets by its padding. */
  function DecodeGroup(p: char, q: char, r: char, s: char): Option<bytes> {
    match (ValueOf(p), ValueOf(q), ValueOf(r), ValueOf(s))
    case (Some(a), Some(b), Some(c), Some(d)) => Some([a * 4 + b / 16, b % 16 * 16 + c / 4, c % 4 * 64 + d])
    case (Some(a), Some(b), Some(c), None) => if s == '=' then Some([a * 4 + b / 16, b % 16 * 16 + c / 4]) else None
    case (Some(a), Some(b), None, None) => if r == '=' && s == '=' then Some([a * 4 + b / 16]) else None
    case _ => None
  }

  function Decoded(t: string): Option<bytes> {
    if t == "" then Some([])
    else if |t| < 4 then None
    else
      match (DecodeGroup(t[0], t[1], t[2], t[3]), Decoded(t[4..]))
      case (Some(group), Some(rest)) => if |group| < 3 && rest != [] then None else Some(group + rest)
      case _ => None
  }

  /** The four characters of a group. */
  lemma GroupIs(s: bytes)
    requires 1 <= |s| <= 3
    ensures |Encoded(s)| == 4
    ensures Encoded(s) == [Digit(Sextet(s, 0)), Digit(Sextet(s, 1)), if |s| < 2 then '=' else Digit(Sextet(s, 2)),
                           if |s| < 3 then '=' else Digit(Sextet(s, 3))]
  {
    hide Digit;
    if |s| == 3 {
      assert s[3..] == [] && Encoded(s[3..]) == "";
    }
  }

  lemma Reassembled(a: byte, b: byte, c: byte)
    ensures (a / 4) * 4 + (a % 4 * 16 + b / 16) / 16 == a
    ensures (a % 4 * 16 + b / 16) % 16 * 16 + (b % 16 * 4 + c / 64) / 4 == b
    ensures (b % 16 * 4 + c / 64) % 4 * 64 + c % 64 == c
  {
    Quotient(a as int % 4 * 16 + b as int / 16, 16, a as int % 4, b as int / 16);
    Quotient(b as int % 16 * 4 + c as int / 64, 4, b as int % 16, c as int / 64);
  }

  lemma GroupReads(s: bytes)
    requires 1 <= |s| <= 3
    ensures |Encoded(s)| == 4 && DecodeGroup(Encoded(s)[0], Encoded(s)[1], Encoded(s)[2], Encoded(s)[3]) == Some(s)
  {
    hide Digit, ValueOf, Encoded, Sextet;
    GroupIs(s);
    ValueOfDigit(Sextet(s, 0));
    ValueOfDigit(Sextet(s, 1));
    ValueOfDigit(Sextet(s, 2));
    ValueOfDigit(Sextet(s, 3));
    PadIsNoDigit();
    Reassembled(OctetAt(s, 0), OctetAt(s, 1), OctetAt(s, 2));
    SextetsOf(s);
    if |s| == 3 {
      assert s == [s[0], s[1], s[2]];
    } else if |s| == 2 {
      assert s == [s[0], s[1]];
    } else {
      assert s == [s[0]];
    }
  }

  lemma SextetsOf(s: bytes)
    ensures Sextet(s, 0) == OctetAt(s, 0) / 4
    ensures Sextet(s, 1) == OctetAt(s, 0) % 4 * 16 + OctetAt(s, 1) / 16
    ensures Sextet(s, 2) == OctetAt(s, 1) % 16 * 4 + OctetAt(s, 2) / 64
    ensures Sextet(s, 3) == OctetAt(s, 2) % 64
  {
  }

  lemma PadIsNoDigit()
    ensures ValueOf('=') == None
  {
  }

  /** A receiver gets every octet string back. */
  lemma {:induction false} DecodeInvertsEncode(s: bytes)
    ensures Decoded(Encoded(s)) == Some(s)
    decreases |s|
  {
    hide DecodeGroup, Group;
    if |s| > 3 {
      var group, rest := s[..3], s[3..];
      GroupReads(group);
      DecodeInvertsEncode(rest);
      assert group[3..] == [];
      assert Encoded(s) == Encoded(group) + Encoded(rest);
      assert Encoded(s)[4..] == Encoded(rest);
      assert group + rest == s;
    } else if |s| > 0 {
      GroupReads(s);
      assert Encoded(s)[4..] == "";
      assert s + [] == s;
    }
  }

  /** The examples of section 10 of RFC 4648: the prefixes of "foobar". */
  lemma StandardExamples()
    ensures Encoded([]) == "" && Encoded([102]) == "Zg==" && Encoded([102, 111]) == "Zm8="
    ensures Encoded([102, 111, 111]) == "Zm9v" && Encoded([102, 111, 111, 98]) == "Zm9vYg=="
    ensures Encoded([102, 111, 111, 98, 97]) == "Zm9vYmE=" && Encoded([102, 111, 111, 98, 97, 114]) == "Zm9vYmFy"
  {
    hide Digit;
    DigitIs(25);
    DigitIs(32);
    DigitIs(38);
    DigitIs(60);
    DigitIs(61);
    DigitIs(47);
    DigitIs(24);
    DigitIs(4);
    DigitIs(5);
    DigitIs(50);
    var foo, bar: bytes := [102, 111, 111], [98, 97, 114];
    assert Encoded([]) == "";
    assert foo[3..] == [] && bar[3..] == [];
    assert Encoded(foo) == "Zm9v" && Encoded(bar) == "YmFy" && Encoded(bar[..1]) == "Yg=="
           && Encoded(bar[..2]) == "YmE=";
    forall k: nat | k <= 3 ensures Encoded(foo + bar[..k]) == "Zm9v" + Encoded(bar[..k]) {
      assert (foo + bar[..k])[3..] == bar[..k];
      assert Group(102, 111, 111) == "Zm9v";
      if k == 0 { assert foo + [] == foo; } else { EncodedStep(foo + bar[..k]); }
    }
    assert foo + bar[..1] == [102, 111, 111, 98] && foo + bar[..2] == [102, 111, 111, 98, 97];
    assert foo + bar[..3] == [102, 111, 111, 98, 97, 114] && bar[..3] == bar;
  }
}
