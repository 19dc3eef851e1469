/** Token revocation by the API's auth controller (OAuth 2.0 Token
    Revocation, RFC 7009, section 2.1): a caller may revoke only its own
    current access token, or a refresh token linked to that access token.
    Anything else is a silent no-op, and the answer is always "OK". */
module TokenRevocation {
  import opened Options
  import opened Strings

  /** A refresh token row: the access token it was issued with, and whether it
      has been revoked. */
  datatype RefreshToken = RefreshToken(accessTokenId: string, revoked: bool)

  /** The token store: access token id to its revoked flag, refresh token id to
      its row, and the access token bound to the current request, if any. */
  datatype Tokens = Tokens(access: map<string, bool>, refresh: map<string, RefreshToken>, current: Option<string>)

  /** The request's access token is a stored one. */
  predicate Bound(t: Tokens)
  {
    t.current.Some? ==> t.current.value in t.access
  }

  /** `expireAccessToken`: only the caller's own current access token. */
  function ExpireAccess(t: Tokens, token: Option<string>): (r: Tokens)
    requires Bound(t)
    ensures Bound(r)
    ensures r.refresh == t.refresh && r.current == t.current && r.access.Keys == t.access.Keys
    ensures forall id :: id in t.access ==>
      r.access[id] == (t.access[id] || (t.current == Some(id) && token == Some(id)))
  {
    match t.current
    case None => t
    case Some(cur) => if token != Some(cur) then t else t.(access := t.access[cur := true])
  }

  /** `expireRefreshToken`: only a stored refresh token linked to the caller's
      current access token. */
  function ExpireRefresh(t: Tokens, token: Option<string>): (r: Tokens)
    requires Bound(t)
    ensures Bound(r)
    ensures r.access == t.access && r.current == t.current && r.refresh.Keys == t.refresh.Keys
    ensures forall id :: id in t.refresh ==>
      && r.refresh[id].accessTokenId == t.refresh[id].accessTokenId
      && r.refresh[id].revoked == (t.refresh[id].revoked || (token == Some(id) && t.current == Some(t.refresh[id].accessTokenId)))
  {
    if token.None? || token.value !in t.refresh then t
    else
      var row := t.refresh[token.value];
      match t.current
      case None => t
      case Some(cur) =>
        if cur != row.accessTokenId then t
        else t.(refresh := t.refresh[token.value := row.(revoked := true)])
  }

  /** `strtolower($request->input('token_type_hint', ''))`. */
  function HintOf(hint: Option<string>): string
  {
    ToLower(match hint case None => "" case Some(x) => x)
  }

  /** `revokeAccessToken`'s dispatch on the lower-cased `token_type_hint`
      (missing means ""); any other hint, a missing one included, does
      nothing. */
  function Revoke(t: Tokens, hint: Option<string>, token: Option<string>): (r: Tokens)
    requires Bound(t)
    ensures Bound(r)
    ensures HintOf(hint) == "access_token" ==> r == ExpireAccess(t, token)
    ensures HintOf(hint) == "refresh_token" ==> r == ExpireRefresh(t, token)
    ensures HintOf(hint) != "access_token" && HintOf(hint) != "refresh_token" ==> r == t
    ensures hint.None? ==> r == t
  {
    var h := HintOf(hint);
    if h == "access_token" then ExpireAccess(t, token)
    else if h == "refresh_token" then ExpireRefresh(t, token)
    else t
  }

  /** Revocation never clears a revoked flag, never adds or drops a token and
      never rebinds the request. */
  lemma {:induction false} RevokeOnlyRevokes(t: Tokens, hint: Option<string>, token: Option<string>)
    requires Bound(t)
    ensures var r := Revoke(t, hint, token);
      && r.current == t.current && r.access.Keys == t.access.Keys && r.refresh.Keys == t.refresh.Keys
      && (forall id :: id in t.access && t.access[id] ==> r.access[id])
      && (forall id :: id in t.refresh ==> r.refresh[id].accessTokenId == t.refresh[id].accessTokenId)
      && (forall id :: id in t.refresh && t.refresh[id].revoked ==> r.refresh[id].revoked)
  {
  }

  /** At most one token changes: the current access token when it is the one
      named, or the named refresh token when it is linked to it. */
  lemma {:induction false} RevokeTouchesOnlyTheNamedToken(t: Tokens, hint: Option<string>, token: Option<string>)
    requires Bound(t)
    ensures var r := Revoke(t, hint, token);
      && (forall id :: id in t.access && r.access[id] != t.access[id] ==> token == Some(id) && t.current == Some(id))
      && (forall id :: id in t.refresh && r.refresh[id] != t.refresh[id] ==>
            token == Some(id) && t.current == Some(t.refresh[id].accessTokenId))
  {
    var h := HintOf(hint);
    var r := Revoke(t, hint, token);
    forall id | id in t.refresh && r.refresh[id] != t.refresh[id]
      ensures token == Some(id) && t.current == Some(t.refresh[id].accessTokenId)
    {
      assert r.refresh[id].accessTokenId == t.refresh[id].accessTokenId;
      assert r.refresh[id].revoked != t.refresh[id].revoked;
    }
  }

  /** Without a current access token nothing can be revoked. */
  lemma {:induction false} RevokeNeedsCurrentToken(t: Tokens, hint: Option<string>, token: Option<string>)
    requires Bound(t) && t.current.None?
    ensures Revoke(t, hint, token) == t
  {
  }

  /** Revoking twice is revoking once. */
  lemma {:induction false} RevokeIdempotent(t: Tokens, hint: Option<string>, token: Option<string>)
    requires Bound(t)
    ensures Revoke(Revoke(t, hint, token), hint, token) == Revoke(t, hint, token)
  {
    var r := Revoke(t, hint, token);
    var rr := Revoke(r, hint, token);
    var h := HintOf(hint);
    if h == "access_token" {
      assert rr.access == r.access;
    } else if h == "refresh_token" {
      assert rr.refresh == r.refresh;
    }
  }

  lemma {:induction false} ToLowerIdempotent(s: string)
    ensures ToLower(ToLower(s)) == ToLower(s)
  {
    var l := ToLower(s);
    forall i | 0 <= i < |s| ensures ToLower(l)[i] == l[i] {
      assert l[i] == Lower(s[i]);
    }
  }

  /** The hint is read case-insensitively. */
  lemma {:induction false} HintCaseInsensitive(t: Tokens, hint: string, token: Option<string>)
    requires Bound(t)
    ensures Revoke(t, Some(hint), token) == Revoke(t, Some(ToLower(hint)), token)
  {
    ToLowerIdempotent(hint);
  }

  /** The per-request controller over the token store. */
  class AuthController {
    var access: map<string, bool>
    var refresh: map<string, RefreshToken>
    var current: Option<string>

    function State(): Tokens
      reads this
    {
      Tokens(access, refresh, current)
    }

    ghost predicate Valid()
      reads this
    {
      Bound(State())
    }

    constructor (access: map<string, bool>, refresh: map<string, RefreshToken>, current: Option<string>)
      requires Bound(Tokens(access, refresh, current))
      ensures Valid() && State() == Tokens(access, refresh, current)
    {
      this.access := access;
      this.refresh := refresh;
      this.current := current;
    }

    /** `expireAccessToken`. */
    method ExpireAccessToken(token: Option<string>)
      requires Valid()
      modifies this
      ensures Valid() && State() == ExpireAccess(old(State()), token)
    {
      if current.None? {
        return;
      }
      if current != token {
        return;
      }
      access := access[current.value := true];
    }

    /** `expireRefreshToken`. */
    method ExpireRefreshToken(token: Option<string>)
      requires Valid()
      modifies this
      ensures Valid() && State() == ExpireRefresh(old(State()), token)
    {
      if token.None? || token.value !in refresh {
        return;
      }
      var row := refresh[token.value];
      if current.None? {
        return;
      }
      if current.value != row.accessTokenId {
        return;
      }
      refresh := refresh[token.value := row.(revoked := true)];
    }

    /** `revokeAccessToken`: always answers "OK". */
    method RevokeAccessToken(hint: Option<string>, token: Option<string>) returns (response: string)
      requires Valid()
      modifies this
      ensures Valid() && State() == Revoke(old(State()), hint, token)
      ensures response == "OK"
    {
      var h := HintOf(hint);
      if h == "access_token" {
        ExpireAccessToken(token);
      } else if h == "refresh_token" {
        ExpireRefreshToken(token);
      }
      response := "OK";
    }
  }
}
