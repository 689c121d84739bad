/** Percent-encoding of one URL component, as section 2.1 of RFC 3986 describes it, over UTF-8 bytes. */
module Percent {
  import opened Wrappers
  import opened Utf8

  /** The characters a URI component keeps as they are. */
  predicate IsKept(c: char) {
    'A' <= c <= 'Z' || 'a' <= c <= 'z' || '0' <= c <= '9' || c in "-_.!~*'()"
  }

  type Nibble = n: int | 0 <= n < 16

  function HexOf(n: Nibble): char {
    if n < 10 then '0' + n as char else 'A' + (n - 10) as char
  }

  function NibbleOf(c: char): Option<Nibble> {
    if '0' <= c <= '9' then Some((c - '0') as int)
    else if 'A' <= c <= 'F' then Some((c - 'A') as int + 10)
    else if 'a' <= c <= 'f' then Some((c - 'a') as int + 10)
    else None
  }

  lemma NibbleOfHexOf(n: Nibble)
    ensures NibbleOf(HexOf(n)) == Some(n)
  {
  }

  function EscapeBytes(bs: seq<Byte>): string {
    if bs == [] then "" else ['%', HexOf(bs[0] / 16), HexOf(bs[0] % 16)] + EscapeBytes(bs[1..])
  }

  function EncodeChar(c: char): string {
    if IsKept(c) then [c] else EscapeBytes(EncodeScalar(c as int))
  }

  function EncodeComponent(s: string): string {
    if s == "" then "" else EncodeChar(s[0]) + EncodeComponent(s[1..])
  }

  /** The bytes an encoded text stands for: an escape is one byte, anything else its own bytes. */
  function Unescape(s: string): Option<seq<Byte>> {
    if s == "" then Some([])
    else if s[0] == '%' then
      if |s| < 3 || NibbleOf(s[1]).None? || NibbleOf(s[2]).None? then None
      else
        match Unescape(s[3..])
        case None => None
        case Some(rest) => Some([NibbleOf(s[1]).value * 16 + NibbleOf(s[2]).value] + rest)
    else
      match Unescape(s[1..])
      case None => None
      case Some(rest) => Some(EncodeScalar(s[0] as int) + rest)
  }

  /** The text a component stands for; nothing when an escape is malformed, as the decoder throws. */
  function DecodeComponent(s: string): Option<string> {
    match Unescape(s)
    case None => None
    case Some(bytes) => Decode(bytes)
  }

  lemma UnescapeOne(b: Byte, rest: string)
    requires Unescape(rest).Some?
    ensures Unescape(['%', HexOf(b / 16), HexOf(b % 16)] + rest) == Some([b] + Unescape(rest).value)
  {
    var s := ['%', HexOf(b / 16), HexOf(b % 16)] + rest;
    assert s[3..] == rest;
    NibbleOfHexOf(b / 16);
    NibbleOfHexOf(b % 16);
    assert b / 16 * 16 + b % 16 == b;
  }

  lemma {:induction false} UnescapeBytes(bs: seq<Byte>, tail: string)
    requires Unescape(tail).Some?
    ensures Unescape(EscapeBytes(bs) + tail) == Some(bs + Unescape(tail).value)
  {
    hide Unescape;
    if bs == [] {
      assert EscapeBytes(bs) + tail == tail && bs + Unescape(tail).value == Unescape(tail).value;
    } else {
      UnescapeBytes(bs[1..], tail);
      UnescapeOne(bs[0], EscapeBytes(bs[1..]) + tail);
      assert EscapeBytes(bs) + tail == ['%', HexOf(bs[0] / 16), HexOf(bs[0] % 16)] + (EscapeBytes(bs[1..]) + tail);
      assert [bs[0]] + (bs[1..] + Unescape(tail).value) == bs + Unescape(tail).value;
    }
  }

  lemma {:induction false} UnescapeEncoded(s: string)
    ensures Unescape(EncodeComponent(s)) == Some(Encode(s))
  {
    if s != "" {
      UnescapeEncoded(s[1..]);
      var tail := EncodeComponent(s[1..]);
      if IsKept(s[0]) {
        assert ([s[0]] + tail)[1..] == tail;
      } else {
        UnescapeBytes(EncodeScalar(s[0] as int), tail);
      }
    }
  }

  /** Every component survives being encoded and decoded. */
  lemma DecodeOfEncode(s: string)
    ensures DecodeComponent(EncodeComponent(s)) == Some(s)
  {
    UnescapeEncoded(s);
    DecodeEncode(s);
  }

  lemma {:induction false} EscapeBytesHasNoSlash(bs: seq<Byte>)
    ensures '/' !in EscapeBytes(bs)
  {
    if bs != [] { EscapeBytesHasNoSlash(bs[1..]); }
  }

  /** An encoded component never splits a path, and is empty only for the empty text. */
  lemma {:induction false} EncodedIsOneSegment(s: string)
    ensures '/' !in EncodeComponent(s)
    ensures EncodeComponent(s) == "" <==> s == ""
  {
    if s != "" {
      EncodedIsOneSegment(s[1..]);
      EscapeBytesHasNoSlash(EncodeScalar(s[0] as int));
    }
  }
}
