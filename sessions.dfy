/** The session issuer: login issues a signed token carrying the username
    and an expiry 24 hours after issuance; the `token_required` guard
    accepts a request only when its Authorization header carries such a
    token, still live, whose username still resolves to a user.

    The JWT library (HS256 with the process-wide secret key) is a
    parameter: a `TokenCodec` whose only promised behaviour is that a
    token it encodes decodes back to the same claims and contains no space
    (the compact form is base64url segments joined by dots). */
module Sessions {
  import opened Common
  import opened Credentials

  /** `datetime.timedelta(hours=24)`. */
  const TokenLifetime: int := 24 * Hour

  /** The claims of a session token. */
  datatype Token = Token(username: string, exp: int)

  /** `jwt.encode` / `jwt.decode` under the server's secret key. */
  datatype TokenCodec = TokenCodec(encode: Token -> string, decode: string -> Option<Token>)

  ghost predicate ValidCodec(codec: TokenCodec) {
    forall t: Token :: ' ' !in codec.encode(t) && codec.decode(codec.encode(t)) == Some(t)
  }

  /** PyJWT rejects a token once its `exp` is reached. */
  predicate Live(t: Token, now: int) {
    now < t.exp
  }

  // ---------------------------------------------------------------------
  // The Authorization header: Python's `header.split(' ')`.

  /** `" ".join(parts)`. */
  function Join(parts: seq<string>): string {
    if |parts| == 0 then ""
    else if |parts| == 1 then parts[0]
    else parts[0] + " " + Join(parts[1..])
  }

  /** `s.split(' ')`: the fields between single spaces, empty ones included. */
  function Split(s: string): (fields: seq<string>)
    ensures |fields| >= 1
    ensures forall i :: 0 <= i < |fields| ==> ' ' !in fields[i]
  {
    if s == [] then [""]
    else
      var rest := Split(s[1..]);
      if s[0] == ' ' then [""] + rest
      else [[s[0]] + rest[0]] + rest[1..]
  }

  /** Joining the fields with single spaces gives back the split string. */
  lemma {:induction false} JoinSplit(s: string)
    ensures Join(Split(s)) == s
  {
    if s != [] {
      JoinSplit(s[1..]);
      var rest := Split(s[1..]);
      if s[0] == ' ' {
        assert ([""] + rest)[1..] == rest;
      } else {
        var head := [s[0]] + rest[0];
        assert Join([head] + rest[1..]) == [s[0]] + Join(rest) by {
          if |rest| > 1 {
            assert ([head] + rest[1..])[1..] == rest[1..];
            assert Join(rest) == rest[0] + " " + Join(rest[1..]);
          }
        }
        assert s == [s[0]] + s[1..];
      }
    }
  }

  /** A field free of spaces splits to itself. */
  lemma {:induction false} SplitNoSpace(s: string)
    requires ' ' !in s
    ensures Split(s) == [s]
  {
    if s != [] {
      assert s[0] != ' ' && ' ' !in s[1..];
      SplitNoSpace(s[1..]);
      assert s == [s[0]] + s[1..];
    }
  }

  /** Splitting at the first space peels off the field before it. */
  lemma {:induction false} SplitFirstSpace(a: string, b: string)
    requires ' ' !in a
    ensures Split(a + " " + b) == [a] + Split(b)
  {
    if a == [] {
      assert (a + " " + b)[1..] == b;
    } else {
      var s := a + " " + b;
      assert s[0] == a[0] && s[1..] == a[1..] + " " + b;
      SplitFirstSpace(a[1..], b);
      var rest := Split(s[1..]);
      assert rest == [a[1..]] + Split(b);
      assert rest[0] == a[1..] && rest[1..] == Split(b);
      assert [a[0]] + a[1..] == a;
    }
  }

  /** Splitting undoes joining fields that hold no space. */
  lemma {:induction false} SplitJoin(parts: seq<string>)
    requires |parts| >= 1
    requires forall i :: 0 <= i < |parts| ==> ' ' !in parts[i]
    ensures Split(Join(parts)) == parts
  {
    if |parts| == 1 {
      SplitNoSpace(parts[0]);
    } else {
      SplitJoin(parts[1..]);
      SplitFirstSpace(parts[0], Join(parts[1..]));
      assert [parts[0]] + parts[1..] == parts;
    }
  }

  /** The token part of the header, `token.split(' ')[1]`; the scheme word
      in front of it is not checked. */
  function BearerToken(header: Option<string>): (r: Reply<string>)
    ensures (r.Err? && r.error == MissingToken) <==> !Given(header)
    ensures r.Err? ==> r.error in {MissingToken, InvalidToken}
    ensures Given(header) ==> (r.Ok? <==> |Split(header.value)| >= 2)
    ensures r.Ok? ==> r.value == Split(header.value)[1] && ' ' !in r.value
  {
    if !Given(header) then Err(MissingToken)
    else
      var fields := Split(header.value);
      if |fields| < 2 then Err(InvalidToken) else Ok(fields[1])
  }

  /** Any scheme word followed by one space and a token yields that token. */
  lemma SchemeAndToken(scheme: string, token: string)
    requires ' ' !in scheme && ' ' !in token
    ensures BearerToken(Some(scheme + " " + token)) == Ok(token)
  {
    SplitJoin([scheme, token]);
    assert Join([scheme, token]) == scheme + " " + token by {
      assert [scheme, token][1..] == [token];
    }
  }

  // ---------------------------------------------------------------------
  // Routes.

  /** The body of a successful login. */
  datatype Session = Session(token: string, username: string)

  /** `login`: both fields required; an unknown username and a wrong
      password are answered alike; on success a token for the caller's
      username expiring `TokenLifetime` after `now`. */
  function Login(users: map<string, User>, codec: TokenCodec,
                 username: Option<string>, password: Option<string>, now: int): (r: Reply<Session>)
    ensures r.Err? ==> Status(r.error) in {400, 401}
    ensures r == Err(MissingCredentials) <==> !Given(username) || !Given(password)
    ensures r == Err(InvalidCredentials) <==>
      Given(username) && Given(password) &&
      (username.value !in users || !CheckHash(users[username.value].password, password.value))
    ensures r.Ok? <==>
      Given(username) && Given(password) &&
      username.value in users && CheckHash(users[username.value].password, password.value)
    ensures r.Ok? ==> r.value.username == username.value
    ensures ValidCodec(codec) && r.Ok? ==>
      codec.decode(r.value.token) == Some(Token(username.value, now + TokenLifetime))
  {
    if !Given(username) || !Given(password) then Err(MissingCredentials)
    else if username.value !in users || !CheckHash(users[username.value].password, password.value) then
      Err(InvalidCredentials)
    else
      Ok(Session(codec.encode(Token(username.value, now + TokenLifetime)), username.value))
  }

  /** `token_required`: the user the guarded handler runs with, or why the
      request is refused (every refusal is a 401). */
  function Authenticate(users: map<string, User>, codec: TokenCodec,
                        header: Option<string>, now: int): (r: Reply<User>)
    ensures r.Err? ==> Status(r.error) == 401
    ensures r.Ok? ==> Given(header)
    ensures r.Ok? ==> exists name :: name in users && r.value == users[name]
  {
    match BearerToken(header)
    case Err(e) => Err(e)
    case Ok(raw) =>
      match codec.decode(raw)
      case None => Err(InvalidToken)
      case Some(t) =>
        if !Live(t, now) then Err(InvalidToken)
        else if t.username !in users then Err(UserNotFound)
        else Ok(users[t.username])
  }

  /** The guard accepts exactly a present header whose second field decodes
      to live claims naming an existing user, and runs the handler with
      that user. */
  lemma AuthenticateAccepts(users: map<string, User>, codec: TokenCodec,
                            header: Option<string>, now: int, u: User)
    ensures Authenticate(users, codec, header, now) == Ok(u) <==>
      && BearerToken(header).Ok?
      && codec.decode(BearerToken(header).value).Some?
      && Live(codec.decode(BearerToken(header).value).value, now)
      && codec.decode(BearerToken(header).value).value.username in users
      && u == users[codec.decode(BearerToken(header).value).value.username]
  {
  }

  /** A token issued by login, presented after any scheme word, lets the
      caller in as that user until the lifetime has elapsed and is refused
      as invalid from then on. */
  lemma {:induction false} LoginThenAuthenticate(users: map<string, User>, codec: TokenCodec,
                                                 username: string, password: string,
                                                 scheme: string, issued: int, now: int)
    requires ValidCodec(codec)
    requires ' ' !in scheme
    requires Login(users, codec, Some(username), Some(password), issued).Ok?
    ensures username in users
    ensures Authenticate(users, codec,
                         Some(scheme + " " + Login(users, codec, Some(username), Some(password), issued).value.token),
                         now)
            == if now < issued + TokenLifetime then Ok(users[username]) else Err(InvalidToken)
  {
    var token := Login(users, codec, Some(username), Some(password), issued).value.token;
    assert token == codec.encode(Token(username, issued + TokenLifetime));
    SchemeAndToken(scheme, token);
  }

  /** A registered user whose name and password are non-empty logs in with
      exactly that password, and the issued token verifies to their name for
      the following 24 hours. */
  lemma {:induction false} RegisterLoginVerify(users: map<string, User>, codec: TokenCodec,
                                               username: string, password: string, salt: string,
                                               created: int, attempt: string, issued: int, now: int)
    requires ValidCodec(codec)
    requires username != "" && password != ""
    requires issued <= now < issued + TokenLifetime
    ensures var registered := users[username := NewUser(username, password, salt, created)];
      && (Login(registered, codec, Some(username), Some(attempt), issued).Ok? <==> attempt == password)
      && (attempt == password ==>
            var header := Some("Bearer " + Login(registered, codec, Some(username), Some(attempt), issued).value.token);
            && Authenticate(registered, codec, header, now).Ok?
            && Authenticate(registered, codec, header, now).value.username == username)
  {
    var registered := users[username := NewUser(username, password, salt, created)];
    assert registered[username].password == Hash(salt, password);
    CheckHashExact(salt, password, attempt);
    if attempt == password {
      LoginThenAuthenticate(registered, codec, username, attempt, "Bearer", issued, now);
      assert registered[username].username == username;
      var token := Login(registered, codec, Some(username), Some(attempt), issued).value.token;
      assert "Bearer " + token == "Bearer" + " " + token;
    }
  }
}
