/**
 * Inspection of the `_session` cookie: does an existing token carry user
 * information? The token is percent-decoded, the part before the first `.`
 * is base64-decoded (padded with "=="), and the text is searched for the
 * marker `userId`. The two decoders are parameters of the model; a base64
 * decode that raises is `None`, and then the token is NOT treated as
 * carrying user information (the check fails open).
 */
module SessionToken {
  import opened Wrappers

  /** The marker whose presence in the decoded payload protects a session. */
  const UserIdMarker: string := "userId"

  /** The two decoders the inspection relies on. */
  datatype TokenCodec = TokenCodec(
    unquote: string -> string,          // percent-decoding, which never raises
    b64decode: string -> Option<string> // base64 then lenient UTF-8; None when it raises
  )

  /** The text before the first `.` of `s` (all of `s` when it has none). */
  function FirstSegment(s: string): (p: string)
    ensures p <= s
    ensures '.' !in p
    ensures |p| < |s| ==> s[|p|] == '.'
  {
    if |s| == 0 || s[0] == '.' then "" else [s[0]] + FirstSegment(s[1..])
  }

  /** `pat` occurs in `text` starting at index `i`. */
  predicate OccursAt(text: string, pat: string, i: int) {
    0 <= i && i + |pat| <= |text| && text[i..i + |pat|] == pat
  }

  /** Substring search: is `pat` somewhere in `text`? */
  function Contains(text: string, pat: string): bool
    decreases |text|
  {
    if pat <= text then true
    else if |text| == 0 then false
    else Contains(text[1..], pat)
  }

  lemma {:induction false} ContainsMeansOccurrence(text: string, pat: string)
    ensures Contains(text, pat) <==> exists i :: OccursAt(text, pat, i)
    decreases |text|
  {
    if pat <= text {
      assert OccursAt(text, pat, 0);
    } else if |text| == 0 {
      assert |pat| > 0;
    } else {
      ContainsMeansOccurrence(text[1..], pat);
      if Contains(text[1..], pat) {
        var i :| OccursAt(text[1..], pat, i);
        assert text[1..][i..i + |pat|] == text[i + 1..i + 1 + |pat|];
        assert OccursAt(text, pat, i + 1);
      } else {
        forall i | 0 < i && OccursAt(text, pat, i)
          ensures OccursAt(text[1..], pat, i - 1)
        {
          assert text[1..][i - 1..i - 1 + |pat|] == text[i..i + |pat|];
        }
        assert !OccursAt(text, pat, 0);
      }
    }
  }

  /** The payload text that the base64 decoder is given for an unquoted token. */
  function Base64Input(decoded: string): string {
    FirstSegment(decoded) + "=="
  }

  /**
   * The existing session token is judged to carry user information: its
   * percent-decoded form has a `.`, the base64 decode of the part before it
   * succeeds, and the decoded text contains `userId`.
   */
  predicate HasUserId(codec: TokenCodec, token: string)
    ensures HasUserId(codec, token) ==>
      '.' in codec.unquote(token) && codec.b64decode(Base64Input(codec.unquote(token))).Some?
  {
    var decoded := codec.unquote(token);
    '.' in decoded &&
    match codec.b64decode(Base64Input(decoded))
    case None => false
    case Some(text) => Contains(text, UserIdMarker)
  }

  /**
   * HasUserId in terms of occurrences: a token carries user information
   * exactly when its unquoted form has a dot, its payload decodes, and the
   * marker occurs somewhere in the decoded text. A failed decode never
   * protects.
   */
  lemma HasUserIdMeaning(codec: TokenCodec, token: string)
    ensures HasUserId(codec, token) <==>
      var decoded := codec.unquote(token);
      && '.' in decoded
      && codec.b64decode(Base64Input(decoded)).Some?
      && exists i :: OccursAt(codec.b64decode(Base64Input(decoded)).value, UserIdMarker, i)
    ensures codec.b64decode(Base64Input(codec.unquote(token))).None? ==> !HasUserId(codec, token)
  {
    var decoded := codec.unquote(token);
    match codec.b64decode(Base64Input(decoded))
    case None =>
    case Some(text) => ContainsMeansOccurrence(text, UserIdMarker);
  }
}
