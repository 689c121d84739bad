/** Bytes as URL-safe base64 text without padding, as section 5 of RFC 4648 defines it. */
module Base64Url {
  import opened Wrappers
  import opened Utf8

  type Sextet = n: int | 0 <= n < 64

  function CharOf(n: Sextet): char {
    if n < 26 then 'A' + n as char
    else if n < 52 then 'a' + (n - 26) as char
    else if n < 62 then '0' + (n - 52) as char
    else if n == 62 then '-' else '_'
  }

  function ValueOf(c: char): Option<Sextet> {
    if 'A' <= c <= 'Z' then Some((c - 'A') as int)
    else if 'a' <= c <= 'z' then Some((c - 'a') as int + 26)
    else if '0' <= c <= '9' then Some((c - '0') as int + 52)
    else if c == '-' then Some(62)
    else if c == '_' then Some(63)
    else None
  }

  lemma ValueOfCharOf(n: Sextet)
    ensures ValueOf(CharOf(n)) == Some(n)
  {
  }

  function Group(a: Byte, b: Byte, c: Byte): (q: seq<Sextet>)
    ensures |q| == 4
  {
    [a / 4, a % 4 * 16 + b / 16, b % 16 * 4 + c / 64, c % 64]
  }

  function Ungroup(w: Sextet, x: Sextet, y: Sextet, z: Sextet): (t: seq<Byte>)
    ensures |t| == 3
  {
    [w * 4 + x / 16, x % 16 * 16 + y / 4, y % 4 * 64 + z]
  }

  lemma UngroupGroup(a: Byte, b: Byte, c: Byte)
    ensures var q := Group(a, b, c); Ungroup(q[0], q[1], q[2], q[3]) == [a, b, c]
  {
  }

  /** Three bytes make four characters; a last one or two bytes make two or three. */
  function Encode(bs: seq<Byte>): string {
    if bs == [] then ""
    else if |bs| == 1 then var q := Group(bs[0], 0, 0); [CharOf(q[0]), CharOf(q[1])]
    else if |bs| == 2 then var q := Group(bs[0], bs[1], 0); [CharOf(q[0]), CharOf(q[1]), CharOf(q[2])]
    else
      var q := Group(bs[0], bs[1], bs[2]);
      [CharOf(q[0]), CharOf(q[1]), CharOf(q[2]), CharOf(q[3])] + Encode(bs[3..])
  }

  /** The bytes of a text in the alphabet; bits left over at the end are dropped. */
  function Decode(s: string): Option<seq<Byte>> {
    if s == "" then Some([])
    else if |s| == 1 || ValueOf(s[0]).None? || ValueOf(s[1]).None? then None
    else if |s| == 2 then Some(Ungroup(ValueOf(s[0]).value, ValueOf(s[1]).value, 0, 0)[..1])
    else if ValueOf(s[2]).None? then None
    else if |s| == 3 then Some(Ungroup(ValueOf(s[0]).value, ValueOf(s[1]).value, ValueOf(s[2]).value, 0)[..2])
    else if ValueOf(s[3]).None? then None
    else
      match Decode(s[4..])
      case None => None
      case Some(rest) => Some(Ungroup(ValueOf(s[0]).value, ValueOf(s[1]).value, ValueOf(s[2]).value, ValueOf(s[3]).value) + rest)
  }

  lemma DecodeFullGroup(a: Byte, b: Byte, c: Byte, rest: string)
    ensures var q := Group(a, b, c);
            var s := [CharOf(q[0]), CharOf(q[1]), CharOf(q[2]), CharOf(q[3])] + rest;
            Decode(s) == (match Decode(rest) case None => None case Some(bs) => Some([a, b, c] + bs))
  {
    var q := Group(a, b, c);
    var s := [CharOf(q[0]), CharOf(q[1]), CharOf(q[2]), CharOf(q[3])] + rest;
    assert s[4..] == rest;
    UngroupGroup(a, b, c);
    ValueOfCharOf(q[0]);
    ValueOfCharOf(q[1]);
    ValueOfCharOf(q[2]);
    ValueOfCharOf(q[3]);
  }

  lemma DecodeTail(a: Byte, b: Byte)
    ensures Decode(Encode([a, b])) == Some([a, b])
    ensures b == 0 ==> Decode(Encode([a])) == Some([a])
  {
    var q := Group(a, b, 0);
    UngroupGroup(a, b, 0);
    ValueOfCharOf(q[0]);
    ValueOfCharOf(q[1]);
    ValueOfCharOf(q[2]);
    assert Ungroup(q[0], q[1], q[2], 0)[..2] == [a, b];
    assert Ungroup(q[0], q[1], 0, 0)[..1] == [a];
  }

  /** Any bytes survive the trip through their text. */
  lemma {:induction false} DecodeEncode(bs: seq<Byte>)
    ensures Decode(Encode(bs)) == Some(bs)
  {
    if |bs| == 1 {
      DecodeTail(bs[0], 0);
      assert bs == [bs[0]];
    } else if |bs| == 2 {
      DecodeTail(bs[0], bs[1]);
      assert bs == [bs[0], bs[1]];
    } else if |bs| >= 3 {
      DecodeEncode(bs[3..]);
      DecodeFullGroup(bs[0], bs[1], bs[2], Encode(bs[3..]));
      assert [bs[0], bs[1], bs[2]] + bs[3..] == bs;
    }
  }
}
