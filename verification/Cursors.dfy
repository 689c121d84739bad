/** The opaque page cursor: the sort key of the last row shown, as parts joined by bars. */
module Cursors {
  import opened Wrappers
  import opened Text
  import Utf8
  import Base64Url

  function EncodeCursor(parts: seq<string>): string {
    Base64Url.Encode(Utf8.Encode(Join(parts, '|')))
  }

  function DecodeCursor(cursor: string, arity: nat): (r: Option<seq<string>>)
    ensures r.Some? ==> |r.value| == arity && forall i :: 0 <= i < arity ==> r.value[i] != "" && '|' !in r.value[i]
  {
    match Base64Url.Decode(cursor)
    case None => None
    case Some(bytes) =>
      var parts := Split(Utf8.ToText(bytes), '|');
      if |parts| == arity && forall i :: 0 <= i < |parts| ==> |parts[i]| > 0 then Some(parts) else None
  }

  predicate Plain(parts: seq<string>) {
    forall i :: 0 <= i < |parts| ==> parts[i] != "" && '|' !in parts[i]
  }

  /**
   * A cursor gives its parts back exactly when it is asked for as many as it holds, and every part
   * is non-empty.
   */
  lemma DecodeOfEncode(parts: seq<string>, arity: nat)
    requires |parts| >= 1 && forall i :: 0 <= i < |parts| ==> '|' !in parts[i]
    ensures DecodeCursor(EncodeCursor(parts), arity)
         == if |parts| == arity && Plain(parts) then Some(parts) else None
  {
    var text := Join(parts, '|');
    Base64Url.DecodeEncode(Utf8.Encode(text));
    Utf8.DecodeEncode(text);
    Utf8.ToTextIsDecode(Utf8.Encode(text));
    SplitJoin(parts, '|');
  }

  /** Different positions have different cursors. */
  lemma CursorsDiffer(a: seq<string>, b: seq<string>)
    requires |a| >= 1 && |b| >= 1 && Plain(a) && Plain(b)
    ensures EncodeCursor(a) == EncodeCursor(b) ==> a == b
  {
    DecodeOfEncode(a, |a|);
    DecodeOfEncode(b, |b|);
    DecodeOfEncode(a, |b|);
  }
}
