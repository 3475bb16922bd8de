/**
 * The connection state of an ERCOTAPI client: credentials, the bearer token,
 * the authentication header built from it and the time after which the
 * connection is considered expired.
 *
 * The identity provider (the token POST) and the API's status endpoint are
 * foreign calls: their replies are parameters. `None` as a token reply means
 * the reply lacked `id_token`, which raises `KeyError` in the source; the
 * state is then left as it was. Time is an abstract clock in seconds.
 */
module Connection {
  import opened Wrappers

  /** A successful status check keeps the connection for 50 minutes. */
  const CutoffWindow: int := 50 * 60
  const StatusOk: int := 200

  datatype AuthHeader = AuthHeader(authorization: string, subscriptionKey: string)

  /** The header sent with every request: the bearer token and the API key. */
  function BearerHeader(token: string, apiKey: string): (h: AuthHeader)
    ensures |h.authorization| == 7 + |token|
    ensures h.authorization[..7] == "Bearer " && h.authorization[7..] == token
    ensures h.subscriptionKey == apiKey
  {
    AuthHeader("Bearer " + token, apiKey)
  }

  /** A fetch refreshes the connection once the clock has reached the cutoff. */
  predicate NeedsRefresh(now: int, cutoff: int)
  {
    now >= cutoff
  }

  /** The cutoff after a status check answered with `status` at time `now`. */
  function CutoffAfterCheck(cutoff: int, status: int, now: int): int
  {
    if status == StatusOk then now + CutoffWindow else cutoff
  }

  /**
   * After a successful check at `now`, a fetch at `later` refreshes exactly
   * when 50 minutes or more have passed.
   */
  lemma RefreshExactlyAfterWindow(cutoff: int, now: int, later: int)
    ensures NeedsRefresh(later, CutoffAfterCheck(cutoff, StatusOk, now)) <==> later - now >= CutoffWindow
  {
  }

  /** A failed check leaves the refresh decision as it was. */
  lemma FailedCheckKeepsDecision(cutoff: int, status: int, now: int, later: int)
    requires status != StatusOk
    ensures NeedsRefresh(later, CutoffAfterCheck(cutoff, status, now)) == NeedsRefresh(later, cutoff)
  {
  }

  class ErcotApi {
    var username: string
    var password: string
    var apiKey: string
    var accessToken: string
    var authHeader: AuthHeader
    var cutoff: int

    /**
     * Construction with the token the identity provider returned: the header
     * is built, the cutoff starts at `now` and the connection is tested.
     */
    constructor (username: string, password: string, apiKey: string, token: string, now: int, status: int)
      ensures this.username == username && this.password == password && this.apiKey == apiKey
      ensures accessToken == token && authHeader == BearerHeader(token, apiKey)
      ensures cutoff == CutoffAfterCheck(now, status, now)
    {
      this.username := username;
      this.password := password;
      this.apiKey := apiKey;
      accessToken := token;
      authHeader := BearerHeader(token, apiKey);
      cutoff := now;
      new;
      var _ := GetConnectionStatus(now, status);
    }

    /**
     * Sends the sample request; the status code comes back unchanged and only
     * a 200 moves the cutoff to `now` plus the window.
     */
    method GetConnectionStatus(now: int, status: int) returns (code: int)
      modifies this`cutoff
      ensures code == status
      ensures status == StatusOk ==> cutoff == now + CutoffWindow
      ensures status != StatusOk ==> cutoff == old(cutoff)
    {
      if status == StatusOk {
        cutoff := now + CutoffWindow;
      }
      code := status;
    }

    /**
     * Gets a new token, rebuilds the header with the current API key and tests
     * the connection. A token reply without `id_token` raises before anything
     * is assigned, which `ok == false` stands for.
     */
    method SetApiConnection(reply: Option<string>, now: int, status: int) returns (ok: bool)
      modifies this`accessToken, this`authHeader, this`cutoff
      ensures ok == reply.Some?
      ensures ok ==> accessToken == reply.value && authHeader == BearerHeader(reply.value, apiKey)
      ensures ok ==> cutoff == CutoffAfterCheck(old(cutoff), status, now)
      ensures !ok ==> accessToken == old(accessToken) && authHeader == old(authHeader) && cutoff == old(cutoff)
    {
      if reply.None? {
        return false;
      }
      accessToken := reply.value;
      authHeader := BearerHeader(accessToken, apiKey);
      var _ := GetConnectionStatus(now, status);
      ok := true;
    }

    /** The check at the head of every fetch: refresh once the cutoff is reached. */
    method RefreshIfExpired(now: int, reply: Option<string>, checkedAt: int, status: int) returns (refreshed: bool, ok: bool)
      modifies this`accessToken, this`authHeader, this`cutoff
      ensures refreshed == NeedsRefresh(now, old(cutoff))
      ensures ok == (!refreshed || reply.Some?)
      ensures refreshed && ok ==> accessToken == reply.value && authHeader == BearerHeader(reply.value, apiKey)
                                  && cutoff == CutoffAfterCheck(old(cutoff), status, checkedAt)
      ensures !(refreshed && ok) ==> accessToken == old(accessToken) && authHeader == old(authHeader) && cutoff == old(cutoff)
    {
      refreshed := NeedsRefresh(now, cutoff);
      ok := true;
      if refreshed {
        ok := SetApiConnection(reply, checkedAt, status);
      }
    }

    /**
     * Sets the username; with `reset` the connection is set up again. A token
     * reply without `id_token` then raises out of the setter (`ok == false`)
     * after the new username is stored.
     */
    method SetUsername(name: string, reset: bool, reply: Option<string>, now: int, status: int) returns (r: string, ok: bool)
      modifies this
      ensures ok == (!reset || reply.Some?)
      ensures r == name && username == name
      ensures password == old(password) && apiKey == old(apiKey)
      ensures reset && reply.Some? ==> accessToken == reply.value && authHeader == BearerHeader(reply.value, apiKey)
                                       && cutoff == CutoffAfterCheck(old(cutoff), status, now)
      ensures !(reset && reply.Some?) ==> accessToken == old(accessToken) && authHeader == old(authHeader) && cutoff == old(cutoff)
    {
      username := name;
      ok := true;
      if reset {
        ok := SetApiConnection(reply, now, status);
      }
      r := username;
    }

    /**
     * Sets the password; with `reset` the connection is set up again, and a
     * reply without `id_token` raises (`ok == false`) after the store.
     */
    method SetPassword(secret: string, reset: bool, reply: Option<string>, now: int, status: int) returns (r: string, ok: bool)
      modifies this
      ensures ok == (!reset || reply.Some?)
      ensures r == secret && password == secret
      ensures username == old(username) && apiKey == old(apiKey)
      ensures reset && reply.Some? ==> accessToken == reply.value && authHeader == BearerHeader(reply.value, apiKey)
                                       && cutoff == CutoffAfterCheck(old(cutoff), status, now)
      ensures !(reset && reply.Some?) ==> accessToken == old(accessToken) && authHeader == old(authHeader) && cutoff == old(cutoff)
    {
      password := secret;
      ok := true;
      if reset {
        ok := SetApiConnection(reply, now, status);
      }
      r := password;
    }

    /**
     * Sets the API key. Without `reset` the header keeps the old key until
     * the next refresh; with it the header is rebuilt with the new key, and
     * a reply without `id_token` raises (`ok == false`) after the store.
     */
    method SetApiKey(key: string, reset: bool, reply: Option<string>, now: int, status: int) returns (r: string, ok: bool)
      modifies this
      ensures ok == (!reset || reply.Some?)
      ensures r == key && apiKey == key
      ensures username == old(username) && password == old(password)
      ensures reset && reply.Some? ==> accessToken == reply.value && authHeader == BearerHeader(reply.value, key)
                                       && cutoff == CutoffAfterCheck(old(cutoff), status, now)
      ensures !(reset && reply.Some?) ==> accessToken == old(accessToken) && authHeader == old(authHeader) && cutoff == old(cutoff)
    {
      apiKey := key;
      ok := true;
      if reset {
        ok := SetApiConnection(reply, now, status);
      }
      r := apiKey;
    }
  }

  /**
   * Opening a client: the token POST in the constructor raises when its reply
   * has no `id_token`, so no client exists (`null`).
   */
  method Open(username: string, password: string, apiKey: string, reply: Option<string>, now: int, status: int)
    returns (api: ErcotApi?)
    ensures api == null <==> reply.None?
    ensures api != null ==> fresh(api) && api.accessToken == reply.value
                            && api.authHeader == BearerHeader(reply.value, apiKey)
                            && api.cutoff == CutoffAfterCheck(now, status, now)
  {
    if reply.None? {
      return null;
    }
    api := new ErcotApi(username, password, apiKey, reply.value, now, status);
  }
}
