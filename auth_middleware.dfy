/**
 * The `protect` middleware of server/middlewires/authMiddleware.js: take a
 * bearer token from the Authorization header, verify it, load the user, and
 * either continue with `req.user` set or answer 401.
 */
module AuthMiddleware {
  import opened Wrappers
  import opened JsString
  import opened AuthModel

  /** The one part of the request the gate reads: the Authorization header, if sent. */
  datatype Request = Request(authorization: Option<string>)

  /**
   * What happens to a request: `req.user` is set and `next()` is called once,
   * or exactly one JSON response with `success: false` is sent.
   */
  datatype Outcome = Continue(user: PublicUser) | Reject(status: nat, message: string)

  /** The collaborators the gate consults, in the order it consults them. */
  datatype Call = VerifyTokenCall(token: Token) | GetUserByIdCall(id: UserId)

  const NotAuthorized: string := "Not authorized to access this route. Please login."
  const InvalidOrExpired: string := "Invalid or expired token. Please login again."

  /**
   * `authorization && authorization.startsWith('Bearer') ? authorization.split(' ')[1] : undefined`.
   * A token is found exactly when the header starts with "Bearer" and holds a
   * space; it is then the second space-separated field, which holds no space
   * and may be empty.
   */
  function ExtractToken(authorization: Option<string>): (token: Option<string>)
    ensures token.Some? <==>
      authorization.Some? && StartsWith(authorization.value, "Bearer") && ' ' in authorization.value
    ensures token.Some? ==> ' ' !in token.value
  {
    if authorization.Some? && authorization.value != "" && StartsWith(authorization.value, "Bearer") then
      var fields := Split(authorization.value, ' ');
      if |fields| > 1 then Some(fields[1]) else None
    else None
  }

  /** JavaScript truthiness of the `token` variable: defined and not "". */
  predicate Truthy(token: Option<string>): (b: bool)
    ensures token == None ==> !b
    ensures token == Some("") ==> !b
    ensures token.Some? && |token.value| > 0 ==> b
  {
    token.Some? && token.value != ""
  }

  /**
   * Whatever follows "Bearer" up to the first space is skipped, and the token
   * runs from that space to the next one or to the end of the header.
   */
  lemma {:induction false} ExtractSecondField(pre: string, t: string, rest: string)
    requires ' ' !in pre && ' ' !in t
    requires rest == "" || rest[0] == ' '
    ensures ExtractToken(Some("Bearer" + pre + " " + t + rest)) == Some(t)
  {
    var first := "Bearer" + pre;
    assert ' ' !in first by {
      assert forall i :: 0 <= i < |first| ==> first[i] == if i < 6 then "Bearer"[i] else pre[i - 6];
    }
    var h := "Bearer" + pre + " " + t + rest;
    assert h[..6] == "Bearer";
    if rest == "" {
      assert h == first + [' '] + t;
      SplitFirstField(first, t, ' ');
      SplitNoSeparator(t, ' ');
    } else {
      var more := rest[1..];
      assert rest == [' '] + more;
      assert h == first + [' '] + (t + [' '] + more);
      SplitFirstField(first, t + [' '] + more, ' ');
      SplitFirstField(t, more, ' ');
    }
  }

  /** Without a space after "Bearer" there is no second field, so no token. */
  lemma BearerAloneHasNoToken()
    ensures ExtractToken(None) == None
    ensures ExtractToken(Some("Bearer")) == None
    ensures ExtractToken(Some("bearer x")) == None
  {
  }

  /** "Bearer  x" (two spaces) yields the empty second field, which is falsy. */
  lemma DoubleSpaceGivesEmptyToken()
    ensures ExtractToken(Some("Bearer  x")) == Some("")
    ensures !Truthy(ExtractToken(Some("Bearer  x")))
  {
  }

  /** "BearerX y" yields "y": text glued to "Bearer" is skipped. */
  lemma GluedPrefixIsSkipped()
    ensures ExtractToken(Some("BearerX y")) == Some("y")
  {
    ExtractSecondField("X", "y", "");
    assert "Bearer" + "X" + " " + "y" + "" == "BearerX y";
  }

  /** "Bearer x y" yields "x": fields after the second are ignored. */
  lemma LaterFieldsAreIgnored()
    ensures ExtractToken(Some("Bearer x y")) == Some("x")
  {
    ExtractSecondField("", "x", " y");
    assert "Bearer" + "" + " " + "x" + " y" == "Bearer x y";
  }

  /** A token issued by generateToken, sent as "Bearer <token>", is what the gate extracts. */
  lemma IssuedTokenExtracted(c: Codec, id: UserId)
    requires WireSafe(c)
    ensures ExtractToken(Some("Bearer " + GenerateToken(c, id))) == Some(GenerateToken(c, id))
    ensures Truthy(ExtractToken(Some("Bearer " + GenerateToken(c, id))))
  {
    var token := GenerateToken(c, id);
    ExtractSecondField("", token, "");
    assert "Bearer" + "" + " " + token + "" == "Bearer " + token;
  }

  /**
   * protect: no token means 401 "not authorized" before any other work; a
   * token that fails verification, or whose id has no user, means 401
   * "invalid or expired"; otherwise the request continues with the user
   * getUserById returned. The store is only read.
   */
  method Protect(req: Request, store: Store, codec: Codec) returns (outcome: Outcome, calls: seq<Call>)
    ensures outcome.Reject? ==> outcome.status == 401
    ensures var token := ExtractToken(req.authorization);
      !Truthy(token) ==> outcome == Reject(401, NotAuthorized) && calls == []
    ensures var token := ExtractToken(req.authorization);
      Truthy(token) && VerifyToken(codec, token.value).Err? ==>
        outcome == Reject(401, InvalidOrExpired) && calls == [VerifyTokenCall(token.value)]
    ensures var token := ExtractToken(req.authorization);
      Truthy(token) && VerifyToken(codec, token.value).Ok? ==>
        var id := VerifyToken(codec, token.value).value.id;
        && calls == [VerifyTokenCall(token.value), GetUserByIdCall(id)]
        && (id !in store.rows ==> outcome == Reject(401, InvalidOrExpired))
        && (id in store.rows ==> outcome == Continue(Sanitize(store.rows[id])))
    ensures outcome.Continue? <==> |calls| == 2 && calls[1].GetUserByIdCall? && calls[1].id in store.rows
    ensures CodecSound(codec) && WireSafe(codec) ==>
      forall id :: req.authorization == Some("Bearer " + GenerateToken(codec, id)) ==>
        outcome == if id in store.rows then Continue(Sanitize(store.rows[id])) else Reject(401, InvalidOrExpired)
  {
    calls := [];
    var token := ExtractToken(req.authorization);
    if !Truthy(token) {
      outcome := Reject(401, NotAuthorized);
    } else {
      calls := calls + [VerifyTokenCall(token.value)];
      var decoded := VerifyToken(codec, token.value);
      if decoded.Err? {
        outcome := Reject(401, InvalidOrExpired);
      } else {
        calls := calls + [GetUserByIdCall(decoded.value.id)];
        var user := GetUserById(store.rows, decoded.value.id);
        if user.Err? {
          outcome := Reject(401, InvalidOrExpired);
        } else {
          outcome := Continue(user.value);
        }
      }
    }
    forall id | CodecSound(codec) && WireSafe(codec) && req.authorization == Some("Bearer " + GenerateToken(codec, id))
      ensures outcome == if id in store.rows then Continue(Sanitize(store.rows[id])) else Reject(401, InvalidOrExpired)
    {
      IssuedTokenExtracted(codec, id);
    }
  }
}
