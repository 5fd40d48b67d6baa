/**
 * The value of the `Authorization` header the book list screen sends with
 * every request: `Bearer <token>` when a non-empty token is stored,
 * otherwise the empty string. The bearer form is the `credentials` production of
 * section 2.1 of RFC 6750.
 */
module Auth {
  import opened Wrappers

  /** What reading the stored `authToken` key produced: it threw, or it returned a value or nothing. */
  datatype TokenLookup = LookupThrew | Stored(token: Option<string>)

  /** The stored token when it is truthy: present and not the empty string. */
  function TruthyToken(lookup: TokenLookup): Option<string>
  {
    if lookup.Stored? && lookup.token.Some? && lookup.token.value != "" then Some(lookup.token.value)
    else None
  }

  /** The header value; a lookup that throws is swallowed and yields the empty string. */
  function AuthHeader(lookup: TokenLookup): (h: string)
    ensures h == "" <==> TruthyToken(lookup).None?
  {
    match lookup
    case LookupThrew => ""
    case Stored(token) =>
      if token.Some? && token.value != "" then "Bearer " + token.value else ""
  }

  /** Reads a header value back: the part after `Bearer `, if the value has that prefix. */
  function BearerToken(h: string): Option<string>
  {
    if |h| > 7 && h[..7] == "Bearer " then Some(h[7..]) else None
  }

  /** The header gives back exactly the truthy token, and an absent token gives back nothing. */
  lemma AuthHeaderRoundTrip(lookup: TokenLookup)
    ensures BearerToken(AuthHeader(lookup)) == TruthyToken(lookup)
  {
    if TruthyToken(lookup).Some? {
      var t := lookup.token.value;
      assert AuthHeader(lookup) == "Bearer " + t;
      assert ("Bearer " + t)[..7] == "Bearer ";
      assert ("Bearer " + t)[7..] == t;
    }
  }

  // ---------------------------------------------------------------------
  // Section 2.1 of RFC 6750: credentials = "Bearer" 1*SP b64token
  // ---------------------------------------------------------------------

  /** A character of the non-padding part of a `b64token`. */
  predicate IsB64Char(c: char)
  {
    ('A' <= c <= 'Z') || ('a' <= c <= 'z') || ('0' <= c <= '9') ||
    c == '-' || c == '.' || c == '_' || c == '~' || c == '+' || c == '/'
  }

  /** `s` without its trailing `=` padding. */
  function StripPadding(s: string): (r: string)
    ensures |r| <= |s| && r == s[..|r|]
    ensures forall i :: |r| <= i < |s| ==> s[i] == '='
  {
    if s != [] && s[|s| - 1] == '=' then StripPadding(s[..|s| - 1]) else s
  }

  /** One or more token characters followed by any number of `=`. */
  predicate IsB64Token(s: string)
  {
    var body := StripPadding(s);
    body != [] && forall i :: 0 <= i < |body| ==> IsB64Char(body[i])
  }

  function DropSpaces(s: string): (r: string)
    ensures |r| <= |s| && r == s[|s| - |r|..]
    ensures r == [] || r[0] != ' '
  {
    if s != [] && s[0] == ' ' then DropSpaces(s[1..]) else s
  }

  /** Parses `credentials` of section 2.1 of RFC 6750 and yields its `b64token`. */
  function ParseCredentials(h: string): Option<string>
  {
    if |h| > 6 && h[..6] == "Bearer" && h[6] == ' ' then
      var t := DropSpaces(h[6..]);
      if IsB64Token(t) then Some(t) else None
    else None
  }

  /** A `b64token` never starts with a space, so dropping leading spaces keeps it whole. */
  lemma B64TokenHasNoLeadingSpace(t: string)
    requires IsB64Token(t)
    ensures DropSpaces(t) == t
  {
    assert t[0] == StripPadding(t)[0];
    assert IsB64Char(StripPadding(t)[0]);
  }

  /** Parsing `Bearer ` followed by `t` yields `t` once its leading spaces are dropped. */
  lemma ParseBearerSpace(t: string)
    ensures ParseCredentials("Bearer " + t) ==
      if IsB64Token(DropSpaces(t)) then Some(DropSpaces(t)) else None
  {
    var h := "Bearer " + t;
    assert h[..6] == "Bearer" && h[6] == ' ';
    assert h[6..] == [' '] + t;
    assert ([' '] + t)[1..] == t;
  }

  /**
   * The empty header is never well-formed bearer credentials, and the
   * header reads back as credentials carrying exactly the stored token
   * when no token is stored or the stored token is a `b64token`.
   */
  lemma AuthHeaderCredentials(lookup: TokenLookup)
    ensures ParseCredentials(AuthHeader(lookup)).Some? ==> TruthyToken(lookup).Some?
    ensures ParseCredentials(AuthHeader(lookup)) == TruthyToken(lookup) <==>
      TruthyToken(lookup).None? || IsB64Token(TruthyToken(lookup).value)
  {
    if TruthyToken(lookup).Some? {
      var t := TruthyToken(lookup).value;
      assert AuthHeader(lookup) == "Bearer " + t;
      ParseBearerSpace(t);
      if IsB64Token(t) {
        B64TokenHasNoLeadingSpace(t);
      }
    }
  }
}
