/** Bytes, fixed-width big-endian numbers, and UTF-8. */
module Bytes {
  import opened Results

  type Byte = b: int | 0 <= b < 256

  type U8 = Byte
  type U16 = n: int | 0 <= n < 0x1_0000
  type U32 = n: int | 0 <= n < 0x1_0000_0000
  type U64 = n: int | 0 <= n < 0x1_0000_0000_0000_0000

  const U32_MAX: nat := 0xFFFF_FFFF
  const U64_MAX: nat := 0xFFFF_FFFF_FFFF_FFFF

  // ------------------------------------------------------------------
  // Big-endian numbers
  // ------------------------------------------------------------------

  function Power256(width: nat): (p: nat)
    ensures p > 0
  {
    if width == 0 then 1 else 256 * Power256(width - 1)
  }

  lemma PowerValues()
    ensures Power256(1) == 0x100
    ensures Power256(2) == 0x1_0000
    ensures Power256(4) == 0x1_0000_0000
    ensures Power256(8) == 0x1_0000_0000_0000_0000
  {
    assert Power256(3) == 0x100_0000;
    assert Power256(5) == 0x100_0000_0000;
    assert Power256(6) == 0x1_0000_0000_0000;
    assert Power256(7) == 0x100_0000_0000_0000;
  }

  function ToBytes(value: nat, width: nat): (b: seq<Byte>)
    ensures |b| == width
  {
    if width == 0 then [] else ToBytes(value / 256, width - 1) + [value % 256]
  }

  function FromBytes(b: seq<Byte>): nat {
    if |b| == 0 then 0 else 256 * FromBytes(b[..|b| - 1]) + b[|b| - 1]
  }

  lemma {:induction false} FromBytesBound(b: seq<Byte>)
    ensures FromBytes(b) < Power256(|b|)
  {
    if |b| > 0 {
      FromBytesBound(b[..|b| - 1]);
    }
  }

  lemma {:induction false} FromToBytes(value: nat, width: nat)
    requires value < Power256(width)
    ensures FromBytes(ToBytes(value, width)) == value
  {
    if width > 0 {
      FromToBytes(value / 256, width - 1);
      assert ToBytes(value, width)[..width - 1] == ToBytes(value / 256, width - 1);
    }
  }

  lemma {:induction false} ToFromBytes(b: seq<Byte>)
    ensures ToBytes(FromBytes(b), |b|) == b
  {
    if |b| > 0 {
      var front := b[..|b| - 1];
      ToFromBytes(front);
      assert FromBytes(b) / 256 == FromBytes(front) && FromBytes(b) % 256 == b[|b| - 1];
      assert b == front + [b[|b| - 1]];
    }
  }

  /** The first byte counts most. */
  lemma {:induction false} BigEndian(b: seq<Byte>)
    requires |b| > 0
    ensures FromBytes(b) == b[0] * Power256(|b| - 1) + FromBytes(b[1..])
  {
    var k := |b| - 1;
    if k > 0 {
      BigEndian(b[..k]);
      assert b[..k][1..] == b[1..][..k - 1];
      assert FromBytes(b[1..]) == 256 * FromBytes(b[1..][..k - 1]) + b[k];
    }
  }

  /** What a header of four bytes says. */
  function Header(b: seq<Byte>): nat
    requires |b| >= 4
  {
    var b0: nat, b1: nat, b2: nat, b3: nat := b[0], b[1], b[2], b[3];
    0x100_0000 * b0 + 0x1_0000 * b1 + 0x100 * b2 + b3
  }

  lemma FourBytes(b: seq<Byte>)
    requires |b| >= 4
    ensures FromBytes(b[..4]) == Header(b)
  {
    assert b[..4][..3] == b[..3] && b[..3][..2] == b[..2] && b[..2][..1] == b[..1] && b[..1][..0] == [];
    assert FromBytes(b[..1]) == b[0];
    assert FromBytes(b[..2]) == 256 * FromBytes(b[..1]) + b[1];
    assert FromBytes(b[..3]) == 256 * FromBytes(b[..2]) + b[2];
  }

  // ------------------------------------------------------------------
  // UTF-8, section 4 of RFC 3629
  // ------------------------------------------------------------------

  function EncodeChar(c: char): (b: seq<Byte>)
    ensures 1 <= |b| <= 4
  {
    var n := c as int;
    if n < 0x80 then [n]
    else if n < 0x800 then [0xC0 + n / 0x40, Tail(n)]
    else if n < 0x1_0000 then [0xE0 + n / 0x1000, Tail(n / 0x40), Tail(n)]
    else [0xF0 + n / 0x4_0000, Tail(n / 0x1000), Tail(n / 0x40), Tail(n)]
  }

  function Tail(n: nat): Byte {
    0x80 + n % 0x40
  }

  predicate IsTail(b: Byte) {
    0x80 <= b < 0xC0
  }

  function EncodeUtf8(s: string): seq<Byte> {
    if |s| == 0 then [] else EncodeChar(s[0]) + EncodeUtf8(s[1..])
  }

  // The code points that two, three and four bytes spell.

  function Join2(b0: int, b1: int): int {
    (b0 - 0xC0) * 0x40 + (b1 - 0x80)
  }

  function Join3(b0: int, b1: int, b2: int): int {
    (b0 - 0xE0) * 0x1000 + (b1 - 0x80) * 0x40 + (b2 - 0x80)
  }

  function Join4(b0: int, b1: int, b2: int, b3: int): int {
    (b0 - 0xF0) * 0x4_0000 + (b1 - 0x80) * 0x1000 + (b2 - 0x80) * 0x40 + (b3 - 0x80)
  }

  /** The first character and the number of bytes it takes, if they are well formed. */
  function DecodeChar(b: seq<Byte>): (r: Option<(char, nat)>)
    requires |b| > 0
    ensures r.Some? ==> 1 <= r.value.1 <= |b|
  {
    if b[0] < 0x80 then Some((b[0] as char, 1))
    else if 0xC2 <= b[0] < 0xE0 && |b| >= 2 && IsTail(b[1]) then
      Some((Join2(b[0], b[1]) as char, 2))
    else if 0xE0 <= b[0] < 0xF0 && |b| >= 3 && ThreeByteSecond(b[0], b[1]) && IsTail(b[2]) then
      Some((Join3(b[0], b[1], b[2]) as char, 3))
    else if 0xF0 <= b[0] < 0xF5 && |b| >= 4 && FourByteSecond(b[0], b[1]) && IsTail(b[2]) && IsTail(b[3]) then
      Some((Join4(b[0], b[1], b[2], b[3]) as char, 4))
    else None
  }

  /** Excludes over-long forms and surrogates. */
  predicate ThreeByteSecond(first: Byte, second: Byte) {
    IsTail(second) && (first == 0xE0 ==> 0xA0 <= second) && (first == 0xED ==> second < 0xA0)
  }

  /** Excludes over-long forms and numbers past the last code point. */
  predicate FourByteSecond(first: Byte, second: Byte) {
    IsTail(second) && (first == 0xF0 ==> 0x90 <= second) && (first == 0xF4 ==> second < 0x90)
  }

  function DecodeUtf8(b: seq<Byte>): Option<string> {
    if |b| == 0 then Some("")
    else match DecodeChar(b)
      case None => None
      case Some((c, width)) =>
        match DecodeUtf8(b[width..])
        case None => None
        case Some(rest) => Some([c] + rest)
  }

  lemma SixBits(n: nat)
    ensures n == 0x40 * (n / 0x40) + n % 0x40
    ensures n / 0x40 / 0x40 == n / 0x1000
    ensures n / 0x1000 / 0x40 == n / 0x4_0000
  {
  }

  lemma DecodeEncodeChar(c: char, rest: seq<Byte>)
    ensures DecodeChar(EncodeChar(c) + rest) == Some((c, |EncodeChar(c)|))
  {
    hide Join2, Join3, Join4, Tail;
    var n := c as int;
    JoinTails(n);
    TailsAreTails(n);
    var written := EncodeChar(c);
    var text := written + rest;
    assert forall i :: 0 <= i < |written| ==> text[i] == written[i];
  }

  /** What is written is a tail, and never over-long. */
  lemma TailsAreTails(n: nat)
    ensures IsTail(Tail(n)) && IsTail(Tail(n / 0x40)) && IsTail(Tail(n / 0x1000))
    ensures 0x800 <= n < 0x1_0000 && (n < 0xD800 || 0xE000 <= n) ==> ThreeByteSecond(0xE0 + n / 0x1000, Tail(n / 0x40))
    ensures 0x1_0000 <= n < 0x11_0000 ==> FourByteSecond(0xF0 + n / 0x4_0000, Tail(n / 0x1000))
  {
    SixBits(n);
    SixBits(n / 0x40);
    SixBits(n / 0x1000);
  }

  /** The digits an encoding writes are joined back together. */
  lemma JoinTails(n: nat)
    ensures Join2(0xC0 + n / 0x40, Tail(n)) == n
    ensures Join3(0xE0 + n / 0x1000, Tail(n / 0x40), Tail(n)) == n
    ensures Join4(0xF0 + n / 0x4_0000, Tail(n / 0x1000), Tail(n / 0x40), Tail(n)) == n
  {
    SixBits(n);
    SixBits(n / 0x40);
    SixBits(n / 0x1000);
  }

  lemma SplitJoin2(b0: int, b1: int)
    requires 0xC2 <= b0 < 0xE0 && 0x80 <= b1 < 0xC0
    ensures var n := Join2(b0, b1); 0x80 <= n < 0x800 && n / 0x40 == b0 - 0xC0 && n % 0x40 == b1 - 0x80
  {
  }

  lemma SplitJoin3(b0: int, b1: int, b2: int)
    requires 0xE0 <= b0 < 0xF0 && 0x80 <= b1 < 0xC0 && 0x80 <= b2 < 0xC0
    requires b0 == 0xE0 ==> 0xA0 <= b1
    ensures
      var n := Join3(b0, b1, b2);
      && 0x800 <= n < 0x1_0000
      && n / 0x1000 == b0 - 0xE0 && (n / 0x40) % 0x40 == b1 - 0x80 && n % 0x40 == b2 - 0x80
  {
    var n := Join3(b0, b1, b2);
    assert n / 0x40 == (b0 - 0xE0) * 0x40 + (b1 - 0x80);
  }

  lemma SplitJoin4(b0: int, b1: int, b2: int, b3: int)
    requires 0xF0 <= b0 < 0xF5 && 0x80 <= b1 < 0xC0 && 0x80 <= b2 < 0xC0 && 0x80 <= b3 < 0xC0
    requires b0 == 0xF0 ==> 0x90 <= b1
    ensures
      var n := Join4(b0, b1, b2, b3);
      && 0x1_0000 <= n
      && n / 0x4_0000 == b0 - 0xF0 && (n / 0x1000) % 0x40 == b1 - 0x80
      && (n / 0x40) % 0x40 == b2 - 0x80 && n % 0x40 == b3 - 0x80
  {
    var n := Join4(b0, b1, b2, b3);
    assert n / 0x40 == (b0 - 0xF0) * 0x1000 + (b1 - 0x80) * 0x40 + (b2 - 0x80);
    assert n / 0x1000 == (b0 - 0xF0) * 0x40 + (b1 - 0x80);
  }

  lemma EncodeDecodeChar(b: seq<Byte>)
    requires |b| > 0 && DecodeChar(b).Some?
    ensures var (c, width) := DecodeChar(b).value; EncodeChar(c) == b[..width]
  {
    hide Join2, Join3, Join4;
    var width := DecodeChar(b).value.1;
    if width == 2 {
      SplitJoin2(b[0], b[1]);
    } else if width == 3 {
      SplitJoin3(b[0], b[1], b[2]);
    } else if width == 4 {
      SplitJoin4(b[0], b[1], b[2], b[3]);
    }
  }

  lemma {:induction false} DecodeEncodeUtf8(s: string)
    ensures DecodeUtf8(EncodeUtf8(s)) == Some(s)
  {
    if |s| > 0 {
      hide EncodeChar, DecodeChar;
      var rest := EncodeUtf8(s[1..]);
      DecodeEncodeChar(s[0], rest);
      DecodeEncodeUtf8(s[1..]);
      assert (EncodeChar(s[0]) + rest)[|EncodeChar(s[0])|..] == rest;
      assert s == [s[0]] + s[1..];
    }
  }

  lemma {:induction false} EncodeDecodeUtf8(b: seq<Byte>)
    requires DecodeUtf8(b).Some?
    ensures EncodeUtf8(DecodeUtf8(b).value) == b
  {
    if |b| > 0 {
      DecodeFirst(b);
      var width := DecodeChar(b).value.1;
      EncodeDecodeUtf8(b[width..]);
      EncodeDecodeFirst(b);
    }
  }

  lemma EncodeDecodeFirst(b: seq<Byte>)
    requires |b| > 0 && DecodeChar(b).Some?
    requires
      var (c, width) := DecodeChar(b).value;
      && DecodeUtf8(b[width..]).Some? && EncodeUtf8(DecodeUtf8(b[width..]).value) == b[width..]
      && DecodeUtf8(b) == Some([c] + DecodeUtf8(b[width..]).value)
    ensures EncodeUtf8(DecodeUtf8(b).value) == b
  {
    hide EncodeChar, DecodeChar, EncodeUtf8, DecodeUtf8;
    var (c, width) := DecodeChar(b).value;
    EncodeDecodeChar(b);
    EncodeFirst(c, DecodeUtf8(b[width..]).value);
    assert b == b[..width] + b[width..];
  }

  lemma DecodeFirst(b: seq<Byte>)
    requires |b| > 0 && DecodeUtf8(b).Some?
    ensures DecodeChar(b).Some?
    ensures
      var (c, width) := DecodeChar(b).value;
      DecodeUtf8(b[width..]).Some? && DecodeUtf8(b).value == [c] + DecodeUtf8(b[width..]).value
  {
    hide DecodeChar;
  }

  lemma EncodeFirst(c: char, rest: string)
    ensures EncodeUtf8([c] + rest) == EncodeChar(c) + EncodeUtf8(rest)
  {
    assert ([c] + rest)[1..] == rest;
  }

  /** The three shorter examples of section 7 of RFC 3629, and one of each width. */
  lemma Utf8Examples()
    ensures EncodeUtf8("A") == [0x41]
    ensures EncodeUtf8("\U{00E9}") == [0xC3, 0xA9]
    ensures EncodeUtf8("\U{2262}") == [0xE2, 0x89, 0xA2]
    ensures EncodeUtf8("\U{D55C}") == [0xED, 0x95, 0x9C]
    ensures EncodeUtf8("\U{65E5}") == [0xE6, 0x97, 0xA5]
    ensures EncodeUtf8("\U{233B4}") == [0xF0, 0xA3, 0x8E, 0xB4]
  {
    OneChar('A');
    OneChar('\U{00E9}');
    OneChar('\U{2262}');
    OneChar('\U{D55C}');
    OneChar('\U{65E5}');
    OneChar('\U{233B4}');
  }

  lemma OneChar(c: char)
    ensures EncodeUtf8([c]) == EncodeChar(c)
  {
    assert [c] + "" == [c];
    EncodeFirst(c, "");
    assert EncodeChar(c) + [] == EncodeChar(c);
  }

  /** ASCII text is written as it stands. */
  lemma {:induction false} AsciiIsItself(s: string)
    requires forall i :: 0 <= i < |s| ==> s[i] < '\U{0080}'
    ensures |EncodeUtf8(s)| == |s| && forall i :: 0 <= i < |s| ==> EncodeUtf8(s)[i] == s[i] as int
  {
    if |s| > 0 {
      AsciiIsItself(s[1..]);
    }
  }
}
