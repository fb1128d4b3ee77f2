/** The session guard of the front end: the token-expiry check and the session provider that keeps
    the signed-in user and the persisted `'auth'` storage entry in step. */
module AuthContext {
  import opened Wrappers
  import opened Strings

  /** The claims the guard reads from a decoded token payload. `exp` (section 4.1.4 of RFC 7519) is
      the expiry in seconds since the epoch after JavaScript's numeric coercion; `None` stands for a
      missing or non-numeric claim, which coerces to `NaN`. */
  datatype Claims = Claims(exp: Option<real>)

  /** `JSON.parse(atob(segment))` followed by reading the claims: `None` whenever `atob` rejects the
      segment, the text is not JSON, or the JSON is `null` or otherwise has no readable properties. */
  type PayloadDecoder = string -> Option<Claims>

  /** `isTokenValid`: a missing or empty token is invalid; otherwise the token is valid iff its payload
      (`token.split('.')[1]`) decodes and its expiry, in milliseconds, lies strictly after `now`. Every
      failure yields false. When the token has no dot the segment is `undefined`, and
      `atob(undefined)` decodes the nine-letter text "undefined", which is never valid base64; the
      model folds that failure into the missing segment. */
  function IsTokenValid(token: Option<string>, decode: PayloadDecoder, now: int): (r: bool)
    ensures r ==> token.Some? && token.value != "" && '.' in token.value
  {
    match token
    case None => false
    case Some(t) =>
      if t == "" then false
      else
        match SecondPiece(t, '.')
        case None => false
        case Some(segment) =>
          match decode(segment)
          case None => false
          case Some(claims) => claims.exp.Some? && claims.exp.value * 1000.0 > now as real
  }

  /** A null or empty token is never valid. */
  lemma EmptyTokenInvalid(decode: PayloadDecoder, now: int)
    ensures !IsTokenValid(None, decode, now)
    ensures !IsTokenValid(Some(""), decode, now)
  {
  }

  /** For a token whose payload decodes, validity is exactly "expiry in milliseconds is after now". */
  lemma ValidIffNotExpired(token: string, decode: PayloadDecoder, now: int, segment: string, claims: Claims)
    requires token != "" && SecondPiece(token, '.') == Some(segment) && decode(segment) == Some(claims)
    ensures IsTokenValid(Some(token), decode, now) <==> claims.exp.Some? && claims.exp.value * 1000.0 > now as real
  {
  }

  /** The guard fails closed: a token without a dot, or whose payload does not decode, is invalid. */
  lemma MalformedTokenInvalid(token: string, decode: PayloadDecoder, now: int)
    requires '.' !in token || decode(SecondPiece(token, '.').value) == None
    ensures !IsTokenValid(Some(token), decode, now)
  {
  }

  /** Once invalid, a token stays invalid: validity can only be lost as time moves on. */
  lemma ExpiryIsFinal(token: Option<string>, decode: PayloadDecoder, now: int, later: int)
    requires now <= later && !IsTokenValid(token, decode, now)
    ensures !IsTokenValid(token, decode, later)
  {
  }

  /** The token "abc" (no dots) is rejected whatever the decoder and the clock say. */
  lemma NoDotsExample(decode: PayloadDecoder, now: int)
    ensures !IsTokenValid(Some("abc"), decode, now)
  {
    assert '.' !in "abc";
  }

  /** The session object the provider holds and persists. `name` is absent for a registered user. */
  datatype User = User(id: int, email: string, name: Option<string>, token: Option<string>)

  /** What `localStorage.getItem('auth')` holds: the JSON of a user object, or text that `JSON.parse`
      rejects or that does not parse to an object. */
  datatype Stored = Saved(user: User) | Unreadable(text: string)

  /** The back end's reply to sign-in (`name` may be null) and to registration (no `name`). */
  datatype AuthResponse = AuthResponse(id: int, email: string, name: Option<string>, token: string)

  /** `AuthProvider`: the signed-in user, the loading flag, and the `'auth'` storage slot. */
  class AuthProvider {
    var currentUser: Option<User>
    var loading: bool
    var slot: Option<Stored>

    /** The slot and the session agree: a signed-in user is exactly what is persisted. */
    ghost predicate InStep()
      reads this
    {
      currentUser.Some? ==> slot == Some(Saved(currentUser.value))
    }

    /** Children are rendered only once loading is over. */
    function RendersChildren(): bool
      reads this
    {
      !loading
    }

    /** The provider mounts anonymous and loading, over whatever storage holds. */
    constructor (saved: Option<Stored>)
      ensures currentUser == None && loading && slot == saved
      ensures InStep()
    {
      currentUser := None;
      loading := true;
      slot := saved;
    }

    /** The mount effect: restore a saved user whose token is present and valid; otherwise discard
        the entry (an empty entry is left as it is). Loading ends whatever happens. */
    method Restore(decode: PayloadDecoder, now: int)
      requires loading && currentUser == None
      modifies this
      ensures !loading && RendersChildren()
      ensures InStep()
      ensures old(slot).None? || old(slot) == Some(Unreadable("")) ==> currentUser == None && slot == old(slot)
      ensures old(slot).Some? && old(slot).value.Unreadable? && old(slot).value.text != "" ==>
                currentUser == None && slot == None
      ensures old(slot).Some? && old(slot).value.Saved? ==>
                var u := old(slot).value.user;
                if u.token.Some? && u.token.value != "" && IsTokenValid(u.token, decode, now)
                then currentUser == Some(u) && slot == old(slot)
                else currentUser == None && slot == None
    {
      match slot {
        case None =>
        case Some(stored) =>
          match stored {
            case Unreadable(text) =>
              if text != "" {
                slot := None;
              }
            case Saved(u) =>
              if u.token.Some? && u.token.value != "" && IsTokenValid(u.token, decode, now) {
                currentUser := Some(u);
              } else {
                slot := None;
              }
          }
      }
      loading := false;
    }

    /** `login`: on success the user built from the reply becomes the session and is persisted; on
        failure nothing changes and the error is passed on. */
    method Login(reply: Result<AuthResponse, string>) returns (r: Result<User, string>)
      modifies this
      ensures loading == old(loading) && RendersChildren() == old(RendersChildren())
      ensures reply.Failure? ==> r == Failure(reply.error) && currentUser == old(currentUser) && slot == old(slot)
      ensures reply.Success? ==>
                var a := reply.value;
                && r == Success(User(a.id, a.email, a.name, Some(a.token)))
                && currentUser == Some(r.value) && slot == Some(Saved(r.value))
      ensures old(InStep()) ==> InStep()
      ensures reply.Success? ==> InStep()
    {
      match reply {
        case Failure(e) =>
          r := Failure(e);
        case Success(a) =>
          var user := User(a.id, a.email, a.name, Some(a.token));
          currentUser := Some(user);
          slot := Some(Saved(user));
          r := Success(user);
      }
    }

    /** `register`: as `login`, but the stored user has no name. */
    method Register(reply: Result<AuthResponse, string>) returns (r: Result<User, string>)
      modifies this
      ensures loading == old(loading) && RendersChildren() == old(RendersChildren())
      ensures reply.Failure? ==> r == Failure(reply.error) && currentUser == old(currentUser) && slot == old(slot)
      ensures reply.Success? ==>
                var a := reply.value;
                && r == Success(User(a.id, a.email, None, Some(a.token)))
                && currentUser == Some(r.value) && slot == Some(Saved(r.value))
      ensures old(InStep()) ==> InStep()
      ensures reply.Success? ==> InStep()
    {
      match reply {
        case Failure(e) =>
          r := Failure(e);
        case Success(a) =>
          var user := User(a.id, a.email, None, Some(a.token));
          currentUser := Some(user);
          slot := Some(Saved(user));
          r := Success(user);
      }
    }

    /** `logout`: no user, and the storage entry is removed. */
    method Logout()
      modifies this
      ensures currentUser == None && slot == None && loading == old(loading)
      ensures RendersChildren() == old(RendersChildren())
      ensures InStep()
    {
      currentUser := None;
      slot := None;
    }
  }
}
