/** The session store and request authentication of src/sessions.rs.

    The store maps session tokens to their metadata. Wall-clock instants are natural
    numbers on one clock; the instant `Instant::now()` would read is passed in as `now`.
    The thread-local random generator is a stream of indices into the alphanumeric
    alphabet. The mutex around the store is left out: each method runs alone. */
module Sessions {
  import opened Wrappers
  import opened Text

  /** `SessionMetadata`: when the session stops being valid, and whether it is an
      administrator's session. */
  datatype SessionMetadata = SessionMetadata(expires: nat, admin: bool)

  type AlphanumericIndex = i: int | 0 <= i < 62

  predicate IsAlphanumeric(c: char) {
    'A' <= c <= 'Z' || 'a' <= c <= 'z' || '0' <= c <= '9'
  }

  /** The character `rand::distributions::Alphanumeric` yields for an index into its
      alphabet `A-Z`, `a-z`, `0-9`. */
  function AlphanumericChar(i: AlphanumericIndex): (c: char)
    ensures IsAlphanumeric(c)
  {
    if i < 26 then ('A' as int + i) as char
    else if i < 52 then ('a' as int + i - 26) as char
    else ('0' as int + i - 52) as char
  }

  /** `gen_random_token`: `len` characters sampled from the alphanumeric alphabet. */
  function RandomToken(rng: nat -> AlphanumericIndex, len: nat): (token: string)
    ensures |token| == len
    ensures forall i :: 0 <= i < len ==> IsAlphanumeric(token[i])
  {
    var token := seq(len, i requires 0 <= i < len => AlphanumericChar(rng(i)));
    assert forall i :: 0 <= i < len ==> token[i] == AlphanumericChar(rng(i));
    token
  }

  /** `SessionManager`: the map from session token to metadata. */
  class SessionManager {
    var sessions: map<string, SessionMetadata>

    /** `SessionManager::new`: no sessions. */
    constructor ()
      ensures sessions == map[]
    {
      sessions := map[];
    }

    /** `generate_session`: a fresh random token valid for `validity` from `now`. A token
        that is already stored has its entry replaced; no entry is ever removed. */
    method GenerateSession(tokenLen: nat, validity: nat, admin: bool, now: nat, rng: nat -> AlphanumericIndex)
      returns (token: string, metadata: SessionMetadata)
      modifies this
      ensures token == RandomToken(rng, tokenLen)
      ensures metadata == SessionMetadata(now + validity, admin)
      ensures sessions == old(sessions)[token := metadata]
    {
      token := RandomToken(rng, tokenLen);
      metadata := SessionMetadata(now + validity, admin);
      sessions := sessions[token := metadata];
    }

    /** `get_session`: the key handed in, paired with its metadata. */
    function GetSession(key: string): (r: Option<(string, SessionMetadata)>)
      reads this
      ensures r.None? <==> key !in sessions
      ensures r.Some? ==> r.value.0 == key && r.value.1 == sessions[key]
    {
      if key in sessions then Some((key, sessions[key])) else None
    }

    /** `is_admin_session`. */
    function IsAdminSession(key: string): (r: Option<bool>)
      reads this
      ensures r.None? <==> key !in sessions
      ensures r.Some? ==> r.value == sessions[key].admin
    {
      match GetSession(key)
      case None => None
      case Some((_, metadata)) => Some(metadata.admin)
    }

    /** `is_session_valid`: a session is valid strictly before its expiry instant. */
    function IsSessionValid(key: string, now: nat): (r: Option<bool>)
      reads this
      ensures r.None? <==> key !in sessions
      ensures r.Some? ==> (r.value <==> now < sessions[key].expires)
    {
      match GetSession(key)
      case None => None
      case Some((_, metadata)) => Some(metadata.expires > now)
    }
  }

  /** A session generated at `now` is found under its token, is valid until `now +
      validity` and no longer, carries the admin flag asked for, and every other token
      reads as it did before. */
  lemma GeneratedSessionLookups(before: map<string, SessionMetadata>, m: SessionManager,
                                token: string, metadata: SessionMetadata,
                                validity: nat, admin: bool, now: nat)
    requires metadata == SessionMetadata(now + validity, admin)
    requires m.sessions == before[token := metadata]
    ensures m.GetSession(token) == Some((token, metadata))
    ensures m.IsAdminSession(token) == Some(admin)
    ensures forall t: nat :: t < now + validity ==> m.IsSessionValid(token, t) == Some(true)
    ensures forall t: nat :: t >= now + validity ==> m.IsSessionValid(token, t) == Some(false)
    ensures forall key :: key != token ==>
      (m.GetSession(key).Some? <==> key in before) && (key in before ==> m.GetSession(key) == Some((key, before[key])))
  {
  }

  // ---------------------------------------------------------------------------
  // Request authentication

  /** `TokenAuthError`. */
  datatype TokenAuthError = NoTokenSpecified | NoSuchToken | ExpiredToken | NoSessionManager

  /** The outcome of the request guard: the token, or the status and the error. */
  datatype Outcome = Success(token: string) | Failure(status: nat, error: TokenAuthError)

  /** The status of `From<TokenAuthError>`. */
  function FailureStatus(error: TokenAuthError): (status: nat)
    ensures status == 400 <==> error == NoTokenSpecified
    ensures status == 401 <==> error == NoSuchToken || error == ExpiredToken
    ensures status == 500 <==> error == NoSessionManager
  {
    match error
    case NoTokenSpecified => 400
    case NoSuchToken => 401
    case ExpiredToken => 401
    case NoSessionManager => 500
  }

  function Fail(error: TokenAuthError): Outcome {
    Failure(FailureStatus(error), error)
  }

  /** `TokenAuth::from_request`: the session manager must be registered, the request must
      carry a token, the token must be stored, and its session must still be valid, tested
      in that order. */
  function Authenticate(manager: SessionManager?, token: Option<string>, now: nat): (r: Outcome)
    reads manager
    ensures r.Success? <==>
      manager != null && token.Some? && token.value in manager.sessions && now < manager.sessions[token.value].expires
    ensures r.Success? ==> r.token == token.value
    ensures r.Failure? ==> r.status == FailureStatus(r.error)
    ensures r.Failure? ==> (r.error == NoSessionManager <==> manager == null)
    ensures r.Failure? && manager != null ==> (r.error == NoTokenSpecified <==> token.None?)
    ensures r.Failure? && manager != null && token.Some? ==>
      (r.error == NoSuchToken <==> token.value !in manager.sessions)
    ensures r.Failure? && manager != null && token.Some? && token.value in manager.sessions ==>
      r.error == ExpiredToken
  {
    if manager == null then Fail(NoSessionManager)
    else match token
      case None => Fail(NoTokenSpecified)
      case Some(t) =>
        match manager.IsSessionValid(t, now)
        case None => Fail(NoSuchToken)
        case Some(valid) => if !valid then Fail(ExpiredToken) else Success(t)
  }

  // ---------------------------------------------------------------------------
  // Token from the Authorization header

  const BasicScheme: string := "Basic "

  /** `WithHeader::retrieve_token` as written: the first piece of the header value split
      on `Basic `, that is the text before its first occurrence (or the whole value). */
  function HeaderTokenAsWritten(header: Option<string>): (r: Option<string>)
    ensures r.Some? <==> header.Some?
    ensures r.Some? ==> r.value <= header.value
    ensures r.Some? ==> forall j :: 0 <= j ==> !OccursAt(r.value, BasicScheme, j)
    ensures r.Some? ==> forall j :: 0 <= j < |r.value| ==> !OccursAt(header.value, BasicScheme, j)
    ensures r.Some? ==> r.value == header.value || OccursAt(header.value, BasicScheme, |r.value|)
  {
    match header
    case None => None
    case Some(value) =>
      match FindFrom(value, BasicScheme, 0)
      case None => Some(value)
      case Some(i) =>
        PrefixAvoidsScheme(value, i);
        Some(value[..i])
  }

  /** The text before the first occurrence of a pattern does not hold the pattern. */
  lemma PrefixAvoidsScheme(value: string, i: nat)
    requires FindFrom(value, BasicScheme, 0) == Some(i)
    ensures forall j :: 0 <= j ==> !OccursAt(value[..i], BasicScheme, j)
  {
    forall j | 0 <= j && OccursAt(value[..i], BasicScheme, j)
      ensures false
    {
      assert value[..i][j..j + |BasicScheme|] == value[j..j + |BasicScheme|];
      assert OccursAt(value, BasicScheme, j);
    }
  }

  /** A header in the Basic scheme yields the empty token, whatever the credentials. */
  lemma HeaderTokenAsWrittenDropsCredentials(credentials: string)
    ensures HeaderTokenAsWritten(Some(BasicScheme + credentials)) == Some("")
  {
    assert FindFrom(BasicScheme + credentials, BasicScheme, 0) == Some(0);
  }

  /** The header token as the scheme intends it: the text after the first `Basic `, or
      the whole value when the scheme word is missing. */
  function HeaderToken(header: Option<string>): (r: Option<string>)
    ensures r.Some? <==> header.Some?
    ensures r.Some? ==>
      (r.value == header.value <==> forall j :: 0 <= j ==> !OccursAt(header.value, BasicScheme, j))
    ensures r.Some? && r.value != header.value ==>
      var i := |header.value| - |r.value| - |BasicScheme|;
      0 <= i && OccursAt(header.value, BasicScheme, i) &&
      (forall j :: 0 <= j < i ==> !OccursAt(header.value, BasicScheme, j)) &&
      r.value == header.value[i + |BasicScheme|..]
  {
    match header
    case None => None
    case Some(value) =>
      match FindFrom(value, BasicScheme, 0)
      case None => Some(value)
      case Some(i) => Some(value[i + |BasicScheme|..])
  }

  /** The intended reading returns exactly the credentials of a Basic header, and a
      value without the scheme word unchanged. */
  lemma HeaderTokenRoundTrip(credentials: string, bare: string)
    requires forall j :: 0 <= j ==> !OccursAt(bare, BasicScheme, j)
    ensures HeaderToken(Some(BasicScheme + credentials)) == Some(credentials)
    ensures HeaderToken(Some(bare)) == Some(bare)
  {
    assert FindFrom(BasicScheme + credentials, BasicScheme, 0) == Some(0);
  }
}
