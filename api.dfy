/** The `/api` router: a Basic-authentication gate in front of every route,
    then a table from (verb, path) to the controller operation it runs. */
module Api {
  import opened Wrappers
  import opened Text
  import opened Credentials

  const UnauthorizedMessage := "Unauthorized access. Please provide valid credentials."
  const MalformedMessage := "Malformed authorization header."

  /** What the authentication middleware does with a request: hand it on,
      answer 401 with a message, or throw (Express then answers 500). */
  datatype Gate = Proceed | Unauthorized(message: string) | ServerFault

  /** The fixed credential string `admin:password123`. */
  function CredentialPair(): string
  {
    AdminUsername + ":" + AdminPassword
  }

  /** The decoded credential strings the middleware accepts: the exact pair,
      or the pair followed by a further `:`-piece that is ignored. */
  predicate AcceptedDecoding(d: string)
  {
    d == CredentialPair() || CredentialPair() + ":" <= d
  }

  /** The authentication middleware. `header` is the `Authorization` header
      (absent or present); `decode` is base64 decoding followed by UTF-8
      conversion, which the model keeps abstract. The header splits on single
      spaces; the second piece is decoded and split on `:`; only the first two
      pieces of that are compared with the static pair. A missing second
      header piece makes the decoder throw. */
  function Authorize(header: Option<string>, decode: string -> string): (g: Gate)
    ensures header.None? || header == Some("") ==> g == Unauthorized(UnauthorizedMessage)
    ensures g.Unauthorized? ==> g.message == UnauthorizedMessage || g.message == MalformedMessage
    ensures g == ServerFault <==> header.Some? && Split(header.value, ' ') == ["Basic"]
    ensures g == Proceed ==> header.Some? && "Basic " <= header.value
    ensures header.Some? && header.value != "" && Split(header.value, ' ')[0] != "Basic" ==>
              g == Unauthorized(MalformedMessage)
  {
    if header.None? || header.value == "" then Unauthorized(UnauthorizedMessage)
    else
      var tokens := Split(header.value, ' ');
      if tokens[0] != "Basic" then Unauthorized(MalformedMessage)
      else if |tokens| < 2 then ServerFault
      else
        var fields := Split(decode(tokens[1]), ':');
        if |fields| >= 2 && IsStaticCredential(fields[0], fields[1]) then
          SchemePrefix(header.value);
          Proceed
        else Unauthorized(UnauthorizedMessage)
  }

  /** A string whose space-split has at least two pieces, the first `Basic`,
      starts with `Basic ` followed by the rest of the pieces. */
  lemma SchemePrefix(h: string)
    requires var tokens := Split(h, ' '); |tokens| >= 2 && tokens[0] == "Basic"
    ensures "Basic " <= h
  {
    var tokens := Split(h, ' ');
    JoinSplit(h, ' ');
    assert h == tokens[0] + " " + Join(tokens[1..], " ");
  }

  /** Splitting a well-formed header: `Basic`, then the credential token,
      then whatever the tail splits into. */
  lemma {:induction false} HeaderTokens(cred: string, tail: string)
    requires ' ' !in cred
    requires tail == "" || tail[0] == ' '
    ensures var tokens := Split("Basic " + cred + tail, ' ');
            |tokens| >= 2 && tokens[0] == "Basic" && tokens[1] == cred
  {
    assert "Basic " + cred + tail == "Basic" + [' '] + (cred + tail);
    SplitAtFirst("Basic", ' ', cred + tail);
    if tail == "" {
      assert cred + tail == cred;
      SplitNoSeparator(cred, ' ');
    } else {
      assert cred + tail == cred + [' '] + tail[1..];
      SplitAtFirst(cred, ' ', tail[1..]);
    }
  }

  /** The first two `:`-pieces are the static pair exactly when the string is
      the pair itself or the pair followed by `:` and anything. */
  lemma FieldsAreStaticPair(d: string)
    ensures (var fields := Split(d, ':'); |fields| >= 2 && IsStaticCredential(fields[0], fields[1]))
            <==> AcceptedDecoding(d)
  {
    var fields := Split(d, ':');
    if |fields| >= 2 && IsStaticCredential(fields[0], fields[1]) {
      StaticFieldsAccepted(d);
    }
    if AcceptedDecoding(d) {
      AcceptedHasStaticFields(d);
    }
  }

  lemma {:induction false} StaticFieldsAccepted(d: string)
    requires var fields := Split(d, ':'); |fields| >= 2 && IsStaticCredential(fields[0], fields[1])
    ensures AcceptedDecoding(d)
  {
    var fields := Split(d, ':');
    JoinSplit(d, ':');
    assert d == fields[0] + ":" + Join(fields[1..], ":");
    if |fields| == 2 {
      assert Join(fields[1..], ":") == fields[1];
    } else {
      assert Join(fields[1..], ":") == fields[1] + ":" + Join(fields[2..], ":") by {
        assert fields[1..][1..] == fields[2..];
      }
      assert d == CredentialPair() + ":" + Join(fields[2..], ":");
    }
  }

  lemma {:induction false} AcceptedHasStaticFields(d: string)
    requires AcceptedDecoding(d)
    ensures var fields := Split(d, ':'); |fields| >= 2 && IsStaticCredential(fields[0], fields[1])
  {
    assert ':' !in AdminUsername && ':' !in AdminPassword;
    if d == CredentialPair() {
      assert d == AdminUsername + [':'] + AdminPassword;
      SplitAtFirst(AdminUsername, ':', AdminPassword);
      SplitNoSeparator(AdminPassword, ':');
    } else {
      var rest := d[|CredentialPair()| + 1..];
      assert d == AdminUsername + [':'] + (AdminPassword + [':'] + rest);
      SplitAtFirst(AdminUsername, ':', AdminPassword + [':'] + rest);
      SplitAtFirst(AdminPassword, ':', rest);
    }
  }

  /** For a header `Basic <token><tail>`, the request proceeds exactly when the
      token decodes to the static pair, possibly followed by `:` and more:
      any further `:`-piece, and anything after a second space, is ignored. */
  lemma BasicAcceptance(cred: string, tail: string, decode: string -> string)
    requires ' ' !in cred
    requires tail == "" || tail[0] == ' '
    ensures Authorize(Some("Basic " + cred + tail), decode) == Proceed <==> AcceptedDecoding(decode(cred))
    ensures Authorize(Some("Basic " + cred + tail), decode) != Proceed ==>
              Authorize(Some("Basic " + cred + tail), decode) == Unauthorized(UnauthorizedMessage)
  {
    HeaderTokens(cred, tail);
    FieldsAreStaticPair(decode(cred));
  }

  /** The scheme is compared exactly: any other first word, including a
      different spelling of `Basic`, is a malformed header. */
  lemma OtherSchemeMalformed(scheme: string, rest: string, decode: string -> string)
    requires scheme != "" && ' ' !in scheme && scheme != "Basic"
    ensures Authorize(Some(scheme + " " + rest), decode) == Unauthorized(MalformedMessage)
  {
    assert scheme + " " + rest == scheme + [' '] + rest;
    SplitAtFirst(scheme, ' ', rest);
  }

  /** Headers without a scheme word are malformed too: a lone word such as
      `Bearer`, and a header that starts with a space (its first piece is
      empty). */
  lemma NoSchemeMalformed(word: string, rest: string, decode: string -> string)
    requires word != "Basic" && ' ' !in word && word != ""
    ensures Authorize(Some(word), decode) == Unauthorized(MalformedMessage)
    ensures Authorize(Some(" " + rest), decode) == Unauthorized(MalformedMessage)
  {
    SplitNoSeparator(word, ' ');
    assert " " + rest == "" + [' '] + rest;
    SplitAtFirst("", ' ', rest);
  }

  datatype Verb = Get | Post | Put | Delete

  /** The controller operations the router can reach. */
  datatype Handler = GetTasks | CreateTask | UpdateTask | DeleteTask | GetLogs

  /** The route table, on paths relative to the router's mount point split
      into segments. `:id` matches any one non-empty segment and is passed on
      as the route parameter. */
  function Route(verb: Verb, path: seq<string>): (r: Option<(Handler, Option<string>)>)
    ensures r.Some? ==> (r.value.1.Some? <==> r.value.0 == UpdateTask || r.value.0 == DeleteTask)
    ensures r.Some? && r.value.1.Some? ==> |path| == 2 && path[1] == r.value.1.value && path[1] != ""
    ensures r.Some? ==> (r.value.0 == GetLogs <==> path == ["logs"])
    ensures r == Some((GetTasks, None)) <==> verb == Get && path == ["tasks"]
    ensures r == Some((CreateTask, None)) <==> verb == Post && path == ["tasks"]
    ensures r.Some? && r.value.0 == UpdateTask <==> verb == Put && |path| == 2 && path[0] == "tasks" && path[1] != ""
    ensures r.Some? && r.value.0 == DeleteTask <==> verb == Delete && |path| == 2 && path[0] == "tasks" && path[1] != ""
    ensures r == Some((GetLogs, None)) <==> verb == Get && path == ["logs"]
  {
    if path == ["tasks"] then
      (match verb
       case Get => Some((GetTasks, None))
       case Post => Some((CreateTask, None))
       case _ => None)
    else if |path| == 2 && path[0] == "tasks" && path[1] != "" then
      (match verb
       case Put => Some((UpdateTask, Some(path[1])))
       case Delete => Some((DeleteTask, Some(path[1])))
       case _ => None)
    else if path == ["logs"] && verb == Get then Some((GetLogs, None))
    else None
  }

  /** Every controller operation has a route. */
  lemma EveryHandlerRouted(h: Handler, id: string)
    requires id != ""
    ensures exists verb: Verb, path: seq<string> :: Route(verb, path).Some? && Route(verb, path).value.0 == h
  {
    match h
    case GetTasks => assert Route(Get, ["tasks"]).value.0 == h;
    case CreateTask => assert Route(Post, ["tasks"]).value.0 == h;
    case UpdateTask => assert Route(Put, ["tasks", id]).value.0 == h;
    case DeleteTask => assert Route(Delete, ["tasks", id]).value.0 == h;
    case GetLogs => assert Route(Get, ["logs"]).value.0 == h;
  }

  /** What the router does with one request. */
  datatype Response = Handled(handler: Handler, id: Option<string>) | Status(code: nat, message: string) | NoRoute

  /** The middleware runs on every request to the router, matched or not;
      only a request it hands on reaches the route table, and one no route
      matches falls through to the application's not-found answer. */
  function Dispatch(verb: Verb, path: seq<string>, header: Option<string>, decode: string -> string): (r: Response)
    ensures r.Handled? <==> Authorize(header, decode) == Proceed && Route(verb, path).Some?
    ensures r.Status? ==> r.code == 401 || r.code == 500
    ensures r == NoRoute ==> Authorize(header, decode) == Proceed
    ensures Authorize(header, decode).Unauthorized? ==> r == Status(401, Authorize(header, decode).message)
    ensures Authorize(header, decode) == ServerFault ==> r.Status? && r.code == 500
    ensures r.Handled? ==> Route(verb, path) == Some((r.handler, r.id))
    ensures Authorize(header, decode) == Proceed && Route(verb, path).None? ==> r == NoRoute
  {
    match Authorize(header, decode)
    case Unauthorized(message) => Status(401, message)
    case ServerFault => Status(500, "")
    case Proceed =>
      var route := Route(verb, path);
      if route.Some? then Handled(route.value.0, route.value.1) else NoRoute
  }

  /** No controller operation runs unless the header carries the Basic scheme
      and a token that decodes to the static pair. */
  lemma HandlerNeedsCredentials(verb: Verb, path: seq<string>, header: Option<string>, decode: string -> string)
    requires Dispatch(verb, path, header, decode).Handled?
    ensures header.Some? && "Basic " <= header.value
    ensures var tokens := Split(header.value, ' ');
            |tokens| >= 2 && AcceptedDecoding(decode(tokens[1]))
  {
    var tokens := Split(header.value, ' ');
    FieldsAreStaticPair(decode(tokens[1]));
  }
}
