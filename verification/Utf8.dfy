/** Text to bytes and back, as section 3 of RFC 3629 lays the bytes out. */
module Utf8 {
  import opened Wrappers

  type Byte = b: int | 0 <= b < 256

  /** Code points a character can have: everything but the surrogates. */
  predicate IsScalar(n: int) {
    0 <= n < 0xD800 || 0xE000 <= n < 0x11_0000
  }

  function EncodeScalar(n: int): (bs: seq<Byte>)
    requires IsScalar(n)
    ensures 1 <= |bs| <= 4
  {
    if n < 0x80 then [n]
    else if n < 0x800 then [0xC0 + n / 64, 0x80 + n % 64]
    else if n < 0x1_0000 then [0xE0 + n / 4096, 0x80 + n / 64 % 64, 0x80 + n % 64]
    else [0xF0 + n / 262144, 0x80 + n / 4096 % 64, 0x80 + n / 64 % 64, 0x80 + n % 64]
  }

  function Encode(s: string): seq<Byte> {
    if s == "" then [] else EncodeScalar(s[0] as int) + Encode(s[1..])
  }

  predicate IsTail(b: Byte) {
    0x80 <= b < 0xC0
  }

  /** Four six-bit digits put together. */
  function Digits(a: int, b: int, c: int, d: int): int {
    a * 262144 + b * 4096 + c * 64 + d
  }

  lemma DigitsBack(a: int, b: int, c: int, d: int)
    requires 0 <= a && 0 <= b < 64 && 0 <= c < 64 && 0 <= d < 64
    ensures var n := Digits(a, b, c, d);
            n % 64 == d && n / 64 % 64 == c && n / 4096 % 64 == b && n / 262144 == a
            && n / 64 == a * 4096 + b * 64 + c && n / 4096 == a * 64 + b
  {
  }

  /** The first code point of some bytes and how many bytes it took; nothing for a malformed or overlong form. */
  function DecodeScalar(bs: seq<Byte>): (r: Option<(int, nat)>)
    ensures r.Some? ==> IsScalar(r.value.0) && 1 <= r.value.1 <= |bs|
  {
    if bs == [] then None
    else if bs[0] < 0x80 then Some((bs[0], 1))
    else if 0xC0 <= bs[0] < 0xE0 && |bs| >= 2 && IsTail(bs[1]) then
      var n := Digits(0, 0, bs[0] - 0xC0, bs[1] - 0x80);
      if n < 0x80 then None else Some((n, 2))
    else if 0xE0 <= bs[0] < 0xF0 && |bs| >= 3 && IsTail(bs[1]) && IsTail(bs[2]) then
      var n := Digits(0, bs[0] - 0xE0, bs[1] - 0x80, bs[2] - 0x80);
      if n < 0x800 || !IsScalar(n) then None else Some((n, 3))
    else if 0xF0 <= bs[0] < 0xF8 && |bs| >= 4 && IsTail(bs[1]) && IsTail(bs[2]) && IsTail(bs[3]) then
      var n := Digits(bs[0] - 0xF0, bs[1] - 0x80, bs[2] - 0x80, bs[3] - 0x80);
      if n < 0x1_0000 || !IsScalar(n) then None else Some((n, 4))
    else None
  }

  function Decode(bs: seq<Byte>): Option<string> {
    if bs == [] then Some("")
    else
      match DecodeScalar(bs)
      case None => None
      case Some((n, size)) =>
        match Decode(bs[size..])
        case None => None
        case Some(rest) => Some([n as char] + rest)
  }

  lemma DigitsOf(n: int)
    requires 0 <= n < 0x11_0000
    ensures n == Digits(n / 262144, n / 4096 % 64, n / 64 % 64, n % 64)
    ensures n < 0x1_0000 ==> n / 4096 < 16 && n == Digits(0, n / 4096, n / 64 % 64, n % 64)
    ensures n < 0x800 ==> n / 64 < 32 && n == Digits(0, 0, n / 64, n % 64)
    ensures n / 262144 < 5
  {
    assert n / 4096 == n / 64 / 64 && n / 262144 == n / 64 / 64 / 64;
  }

  lemma DecodeShort(n: int, rest: seq<Byte>)
    requires 0 <= n < 0x800
    ensures DecodeScalar(EncodeScalar(n) + rest) == Some((n, |EncodeScalar(n)|))
  {
    DigitsOf(n);
    if n >= 0x80 {
      var bs := EncodeScalar(n) + rest;
      assert bs[0] == 0xC0 + n / 64 && bs[1] == 0x80 + n % 64;
    }
  }

  lemma DecodeThree(n: int, rest: seq<Byte>)
    requires IsScalar(n) && 0x800 <= n < 0x1_0000
    ensures DecodeScalar(EncodeScalar(n) + rest) == Some((n, 3))
  {
    DigitsOf(n);
    var bs := EncodeScalar(n) + rest;
    assert bs[0] == 0xE0 + n / 4096 && bs[1] == 0x80 + n / 64 % 64 && bs[2] == 0x80 + n % 64;
  }

  lemma DecodeFour(n: int, rest: seq<Byte>)
    requires IsScalar(n) && n >= 0x1_0000
    ensures DecodeScalar(EncodeScalar(n) + rest) == Some((n, 4))
  {
    DigitsOf(n);
    var bs := EncodeScalar(n) + rest;
    assert bs[0] == 0xF0 + n / 262144 && bs[1] == 0x80 + n / 4096 % 64 && bs[2] == 0x80 + n / 64 % 64 && bs[3] == 0x80 + n % 64;
  }

  lemma DecodeScalarOfEncode(n: int, rest: seq<Byte>)
    requires IsScalar(n)
    ensures DecodeScalar(EncodeScalar(n) + rest) == Some((n, |EncodeScalar(n)|))
  {
    if n < 0x800 { DecodeShort(n, rest); }
    else if n < 0x1_0000 { DecodeThree(n, rest); }
    else { DecodeFour(n, rest); }
  }

  /** Every text survives the trip through its bytes. */
  lemma {:induction false} DecodeEncode(s: string)
    ensures Decode(Encode(s)) == Some(s)
  {
    if s != "" {
      var head := EncodeScalar(s[0] as int);
      DecodeScalarOfEncode(s[0] as int, Encode(s[1..]));
      assert (head + Encode(s[1..]))[|head|..] == Encode(s[1..]);
      DecodeEncode(s[1..]);
      assert [s[0]] + s[1..] == s;
    }
  }

  lemma EncodeScalarOfDecode(bs: seq<Byte>)
    requires DecodeScalar(bs).Some?
    ensures EncodeScalar(DecodeScalar(bs).value.0) == bs[..DecodeScalar(bs).value.1]
  {
    match DecodeScalar(bs).value.1
    case 1 =>
    case 2 => DigitsBack(0, 0, bs[0] - 0xC0, bs[1] - 0x80);
    case 3 => DigitsBack(0, bs[0] - 0xE0, bs[1] - 0x80, bs[2] - 0x80);
    case _ => DigitsBack(bs[0] - 0xF0, bs[1] - 0x80, bs[2] - 0x80, bs[3] - 0x80);
  }

  /** Bytes that decode at all are the bytes of the text they decode to: there is one form only. */
  lemma {:induction false} EncodeDecode(bs: seq<Byte>)
    requires Decode(bs).Some?
    ensures Encode(Decode(bs).value) == bs
  {
    hide DecodeScalar, EncodeScalar;
    if bs != [] {
      var (n, size) := DecodeScalar(bs).value;
      EncodeScalarOfDecode(bs);
      EncodeDecode(bs[size..]);
      var rest := Decode(bs[size..]).value;
      assert ([n as char] + rest)[1..] == rest;
      assert bs[..size] + bs[size..] == bs;
    }
  }

  // ----- any bytes at all -----

  const REPLACEMENT: char := '\U{FFFD}'

  /** What the second byte of a longer form may be after each first byte; nothing where no form starts so. */
  function SecondOf(first: Byte): Option<(Byte, Byte)> {
    if first == 0xE0 then Some((0xA0, 0xBF))
    else if first == 0xED then Some((0x80, 0x9F))
    else if first == 0xF0 then Some((0x90, 0xBF))
    else if first == 0xF4 then Some((0x80, 0x8F))
    else if 0xC2 <= first < 0xF4 then Some((0x80, 0xBF))
    else None
  }

  /** How much of malformed bytes one replacement character stands for: as much as some form starts with. */
  function Spoiled(bs: seq<Byte>): (size: nat)
    requires bs != []
    ensures 1 <= size <= |bs|
  {
    if SecondOf(bs[0]).None? || |bs| == 1 || !(SecondOf(bs[0]).value.0 <= bs[1] <= SecondOf(bs[0]).value.1) then 1
    else if |bs| == 2 || !IsTail(bs[2]) then 2
    else 3
  }

  /** The text of any bytes: what is malformed becomes replacement characters. */
  function ToText(bs: seq<Byte>): string {
    if bs == [] then ""
    else
      match DecodeScalar(bs)
      case Some((n, size)) => [n as char] + ToText(bs[size..])
      case None => [REPLACEMENT] + ToText(bs[Spoiled(bs)..])
  }

  lemma {:induction false} ToTextIsDecode(bs: seq<Byte>)
    requires Decode(bs).Some?
    ensures ToText(bs) == Decode(bs).value
  {
    hide DecodeScalar;
    if bs != [] {
      ToTextIsDecode(bs[DecodeScalar(bs).value.1..]);
    }
  }

  /** Going to text and back keeps bytes exactly when they were well formed. */
  lemma BackFromText(bs: seq<Byte>)
    ensures Encode(ToText(bs)) == bs <==> Decode(bs).Some?
  {
    DecodeEncode(ToText(bs));
    if Decode(bs).Some? {
      ToTextIsDecode(bs);
      EncodeDecode(bs);
    }
  }

  /** Nothing is lost unseen: malformed bytes leave a replacement character in the text. */
  lemma {:induction false} LossShows(bs: seq<Byte>)
    ensures Decode(bs).None? ==> REPLACEMENT in ToText(bs)
  {
    hide DecodeScalar, Spoiled;
    if bs != [] {
      match DecodeScalar(bs)
      case None =>
      case Some((n, size)) => LossShows(bs[size..]);
    }
  }
}
