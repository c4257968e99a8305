/** The guard clauses of app/services/auth_service.py: the password rule,
    the access-token guard and the API-key guard. Decoding a JWT and looking
    an API key up in the user table are calls into other libraries; they
    are passed in as functions, so the model can state which inputs are
    rejected before those calls are made. */
module Auth {
  import opened Common

  /** What `jwt.decode` yields: a signature or expiry failure (`JWTError`),
      or the payload's "sub" claim, which may be absent. */
  datatype TokenPayload = JwtError | Payload(sub: Option<string>)

  const AccessTokenMissing: string := "Access token missing"
  const InvalidToken: string := "Invalid token"
  const InvalidApiKey: string := "유효하지 않은 API 키입니다"

  /** `get_user_id_from_token` (api.py's `get_userid_bytoken` is the same
      code): an absent or empty token is refused before decoding; a token
      that does not decode, or has no subject, is invalid. */
  function UserIdFromToken(token: Option<string>, decode: string -> TokenPayload): (r: Result<string>)
    ensures (token.None? || token.value == "") ==> r == Err(Http(Unauthorized, AccessTokenMissing))
    ensures r.Ok? <==> token.Some? && token.value != "" && decode(token.value).Payload? && decode(token.value).sub.Some?
    ensures r.Ok? ==> r.value == decode(token.value).sub.value
    ensures r.Err? ==> r.failure.Http? && r.failure.status == Unauthorized
  {
    if token.None? || token.value == "" then Err(Http(Unauthorized, AccessTokenMissing))
    else
      match decode(token.value)
      case JwtError => Err(Http(Unauthorized, InvalidToken))
      case Payload(sub) =>
        if sub.None? then Err(Http(Unauthorized, InvalidToken)) else Ok(sub.value)
  }

  /** A missing token gets the same answer whatever the decoder would say:
      the decoder is never consulted. */
  lemma MissingTokenNeverDecoded(token: Option<string>, d1: string -> TokenPayload, d2: string -> TokenPayload)
    requires token.None? || token.value == ""
    ensures UserIdFromToken(token, d1) == UserIdFromToken(token, d2)
  {
  }

  /** `get_user_id_from_api_key`: keys that are empty or lack the "ak_"
      prefix are refused before the user table is consulted; a key no user
      holds is refused the same way. The user's id is returned as text. */
  function UserIdFromApiKey(apiKey: Option<string>, lookup: string -> Option<nat>): (r: Result<string>)
    ensures (apiKey.None? || !StartsWith(apiKey.value, "ak_")) ==> r == Err(Http(Unauthorized, InvalidApiKey))
    ensures r.Ok? <==> apiKey.Some? && StartsWith(apiKey.value, "ak_") && lookup(apiKey.value).Some?
    ensures r.Ok? ==> r.value == Decimal(lookup(apiKey.value).value)
    ensures r.Err? ==> r == Err(Http(Unauthorized, InvalidApiKey))
  {
    if apiKey.None? || apiKey.value == "" || !StartsWith(apiKey.value, "ak_") then
      Err(Http(Unauthorized, InvalidApiKey))
    else
      match lookup(apiKey.value)
      case None => Err(Http(Unauthorized, InvalidApiKey))
      case Some(id) => Ok(Decimal(id))
  }

  /** Keys without the prefix never reach the lookup. */
  lemma UnprefixedKeyNeverLooked(apiKey: string, l1: string -> Option<nat>, l2: string -> Option<nat>)
    requires !StartsWith(apiKey, "ak_")
    ensures UserIdFromApiKey(Some(apiKey), l1) == UserIdFromApiKey(Some(apiKey), l2)
  {
  }

  // ---------------------------------------------------------------------
  // Password rule
  // ---------------------------------------------------------------------

  const MinPasswordLength: nat := 8

  /** The characters of the class `[!@#$%^&*(),.?":{}|<>]`. */
  const SpecialChars: string := "!@#$%^&*(),.?\":{}|<>"

  predicate IsAsciiLetter(c: char)
  {
    ('a' <= c <= 'z') || ('A' <= c <= 'Z')
  }

  predicate IsSpecial(c: char)
  {
    c in SpecialChars
  }

  predicate HasLetter(p: string)
  {
    exists i :: 0 <= i < |p| && IsAsciiLetter(p[i])
  }

  predicate HasDigit(p: string)
  {
    exists i :: 0 <= i < |p| && IsAsciiDigit(p[i])
  }

  predicate HasSpecial(p: string)
  {
    exists i :: 0 <= i < |p| && IsSpecial(p[i])
  }

  /** Finds a character of the wanted class by scanning, as `re.search` does. */
  function FindLetter(p: string): (r: bool)
    ensures r == HasLetter(p)
  {
    if |p| == 0 then false
    else if IsAsciiLetter(p[0]) then true
    else
      var r := FindLetter(p[1..]);
      assert HasLetter(p[1..]) ==> HasLetter(p) by {
        if HasLetter(p[1..]) {
          var i :| 0 <= i < |p[1..]| && IsAsciiLetter(p[1..][i]);
          assert IsAsciiLetter(p[i + 1]);
        }
      }
      assert HasLetter(p) ==> HasLetter(p[1..]) by {
        if HasLetter(p) {
          var i :| 0 <= i < |p| && IsAsciiLetter(p[i]);
          assert i > 0 && IsAsciiLetter(p[1..][i - 1]);
        }
      }
      r
  }

  function FindDigit(p: string): (r: bool)
    ensures r == HasDigit(p)
  {
    if |p| == 0 then false
    else if IsAsciiDigit(p[0]) then true
    else
      var r := FindDigit(p[1..]);
      assert HasDigit(p[1..]) ==> HasDigit(p) by {
        if HasDigit(p[1..]) {
          var i :| 0 <= i < |p[1..]| && IsAsciiDigit(p[1..][i]);
          assert IsAsciiDigit(p[i + 1]);
        }
      }
      assert HasDigit(p) ==> HasDigit(p[1..]) by {
        if HasDigit(p) {
          var i :| 0 <= i < |p| && IsAsciiDigit(p[i]);
          assert i > 0 && IsAsciiDigit(p[1..][i - 1]);
        }
      }
      r
  }

  function FindSpecial(p: string): (r: bool)
    ensures r == HasSpecial(p)
  {
    if |p| == 0 then false
    else if IsSpecial(p[0]) then true
    else
      var r := FindSpecial(p[1..]);
      assert HasSpecial(p[1..]) ==> HasSpecial(p) by {
        if HasSpecial(p[1..]) {
          var i :| 0 <= i < |p[1..]| && IsSpecial(p[1..][i]);
          assert IsSpecial(p[i + 1]);
        }
      }
      assert HasSpecial(p) ==> HasSpecial(p[1..]) by {
        if HasSpecial(p) {
          var i :| 0 <= i < |p| && IsSpecial(p[i]);
          assert i > 0 && IsSpecial(p[1..][i - 1]);
        }
      }
      r
  }

  /** `validate_password`: the early returns, in the source's order. */
  function ValidatePassword(p: string): (ok: bool)
    ensures ok <==> |p| >= MinPasswordLength && HasLetter(p) && HasDigit(p) && HasSpecial(p)
  {
    if |p| < MinPasswordLength then false
    else if !FindLetter(p) then false
    else if !FindDigit(p) then false
    else if !FindSpecial(p) then false
    else true
  }

  /** Every rule is a lower bound on length or the presence of some
      character, so a valid password stays valid when extended. */
  lemma ExtendingKeepsValid(p: string, q: string)
    requires ValidatePassword(p)
    ensures ValidatePassword(p + q)
  {
    var pq := p + q;
    var i :| 0 <= i < |p| && IsAsciiLetter(p[i]);
    assert IsAsciiLetter(pq[i]);
    var j :| 0 <= j < |p| && IsAsciiDigit(p[j]);
    assert IsAsciiDigit(pq[j]);
    var k :| 0 <= k < |p| && IsSpecial(p[k]);
    assert IsSpecial(pq[k]);
  }

  /** A password meeting every rule, and one that misses each rule in turn. */
  lemma PasswordExamples()
    ensures ValidatePassword("abcdef1!")
    ensures !ValidatePassword("abcde1!")
    ensures !ValidatePassword("12345678!")
    ensures !ValidatePassword("abcdefgh!")
    ensures !ValidatePassword("abcdefg1")
  {
    var good := "abcdef1!";
    assert IsAsciiLetter(good[0]) && IsAsciiDigit(good[6]) && IsSpecial(good[7]);
    var noLetter := "12345678!";
    assert forall i :: 0 <= i < |noLetter| ==> !IsAsciiLetter(noLetter[i]);
    var noDigit := "abcdefgh!";
    assert forall i :: 0 <= i < |noDigit| ==> !IsAsciiDigit(noDigit[i]);
    var noSpecial := "abcdefg1";
    assert forall i :: 0 <= i < |noSpecial| ==> noSpecial[i] !in SpecialChars;
  }
}
