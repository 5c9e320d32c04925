/** The native functions of the web framework module that do not touch the network
    or the filesystem: the in-memory user and session store behind `register`,
    `login`, `logout` and the session check, and the functions that build or
    transform application and response dictionaries. */
module Blaze {
  import opened Base
  import opened Text
  import opened StdValue

  // ------------------------------------------------------------------
  // Users and sessions
  // ------------------------------------------------------------------

  datatype User = User(id: string, username: string, hashedPassword: string)

  /** expiry is in seconds since the Unix epoch. */
  datatype Session = Session(id: string, userId: string, expiry: nat)

  /** The two global maps: users by username, sessions by id. */
  datatype Store = Store(users: map<string, User>, sessions: map<string, Session>)

  /** A session lasts one day. */
  const SessionLifetime: nat := 3600 * 24

  /** `register(username, password)`: false when the name is taken, true once the
      user is stored under a fresh id. */
  function Register(args: seq<SValue>, store: Store, hasher: Hasher, freshId: string): (o: Outcome<Store>)
    ensures o.store.sessions == store.sessions
    ensures o.result == Ok(Boolean(true)) <==>
      |args| >= 2 && args[0].String? && args[1].String? && args[0].s !in store.users && hasher.hash(args[1].s).Some?
    ensures o.result == Ok(Boolean(true)) ==>
      o.store.users == store.users[args[0].s := User(freshId, args[0].s, hasher.hash(args[1].s).value)]
    ensures o.result != Ok(Boolean(true)) ==> o.store == store
    ensures o.result == Ok(Boolean(false)) <==> |args| >= 2 && args[0].String? && args[1].String? && args[0].s in store.users
  {
    if |args| < 2 then Outcome(Err("blaze.register espera 2 argumentos: (username, password)"), store)
    else if !args[0].String? then Outcome(Err("Primeiro argumento (username) deve ser uma string"), store)
    else if !args[1].String? then Outcome(Err("Segundo argumento (password) deve ser uma string"), store)
    else
      var username := args[0].s;
      if username in store.users then Outcome(Ok(Boolean(false)), store)
      else match hasher.hash(args[1].s)
        case None => Outcome(Err("Erro ao fazer hash da senha"), store)
        case Some(hashed) =>
          Outcome(Ok(Boolean(true)), store.(users := store.users[username := User(freshId, username, hashed)]))
  }

  /** `login(username, password)`: a new session id when the password verifies,
      nil otherwise. */
  function Login(args: seq<SValue>, store: Store, hasher: Hasher, freshSession: string, now: nat): (o: Outcome<Store>)
    ensures o.store.users == store.users
    ensures o.result.Ok? && o.result.value.String? <==>
      && |args| >= 2 && args[0].String? && args[1].String?
      && args[0].s in store.users && hasher.verify(args[1].s, store.users[args[0].s].hashedPassword)
    ensures o.result.Ok? && o.result.value.String? ==>
      && o.result.value == String(freshSession)
      && o.store.sessions == store.sessions[freshSession := Session(freshSession, store.users[args[0].s].id, now + SessionLifetime)]
    ensures !(o.result.Ok? && o.result.value.String?) ==> o.store == store && (o.result.Ok? ==> o.result.value == Nil)
  {
    if |args| < 2 then Outcome(Err("blaze.login espera 2 argumentos: (username, password)"), store)
    else if !args[0].String? then Outcome(Err("Primeiro argumento (username) deve ser uma string"), store)
    else if !args[1].String? then Outcome(Err("Segundo argumento (password) deve ser uma string"), store)
    else
      var username := args[0].s;
      if username in store.users && hasher.verify(args[1].s, store.users[username].hashedPassword) then
        var session := Session(freshSession, store.users[username].id, now + SessionLifetime);
        Outcome(Ok(String(freshSession)), store.(sessions := store.sessions[freshSession := session]))
      else Outcome(Ok(Nil), store)
  }

  /** The dictionary `logout` answers with. */
  function LogoutReply(removed: bool): map<SValue, SValue>
  {
    map[Key("success") := Boolean(removed), Key("logout") := Boolean(removed)]
  }

  /** `logout(session_id)`: the session is removed, and the reply says whether it
      existed. */
  function Logout(args: seq<SValue>, store: Store): (o: Outcome<Store>)
    ensures o.store.users == store.users
    ensures o.result.Ok? <==> |args| >= 1 && args[0].String?
    ensures o.result.Ok? ==>
      && o.store.sessions == store.sessions - {args[0].s}
      && o.result.value == Dict(LogoutReply(args[0].s in store.sessions))
    ensures o.result.Err? ==> o.store == store
  {
    if |args| < 1 then Outcome(Err("blaze.logout espera 1 argumento: (session_id)"), store)
    else if !args[0].String? then Outcome(Err("Primeiro argumento (session_id) deve ser uma string"), store)
    else
      var sid := args[0].s;
      Outcome(Ok(Dict(LogoutReply(sid in store.sessions))), store.(sessions := store.sessions - {sid}))
  }

  /** The result of the session check and the store after it. */
  datatype Check = Check(userId: Option<string>, store: Store)

  /** `is_authenticated`: the user of a live session; an expired session is dropped. */
  function IsAuthenticated(store: Store, sid: string, now: nat): (c: Check)
    ensures c.userId.Some? <==> sid in store.sessions && now < store.sessions[sid].expiry
    ensures c.userId.Some? ==> c.userId.value == store.sessions[sid].userId
    ensures c.store.users == store.users
    ensures c.store.sessions == if sid in store.sessions && now >= store.sessions[sid].expiry
                                then store.sessions - {sid} else store.sessions
  {
    if sid in store.sessions then
      if now < store.sessions[sid].expiry then Check(Some(store.sessions[sid].userId), store)
      else Check(None, store.(sessions := store.sessions - {sid}))
    else Check(None, store)
  }

  /** A registered user can log in with the password they registered, and the new
      session authenticates them for a day and no longer. */
  lemma RegisterThenLogin(store: Store, hasher: Hasher, user: string, password: string, id: string,
                          sid: string, now: nat, later: nat)
    requires user !in store.users && hasher.hash(password).Some?
    requires Accepts(hasher, password)
    requires now <= later
    ensures var s1 := Register([String(user), String(password)], store, hasher, id).store;
      var o := Login([String(user), String(password)], s1, hasher, sid, now);
      && o.result == Ok(String(sid))
      && IsAuthenticated(o.store, sid, later).userId == (if later < now + SessionLifetime then Some(id) else None)
  {
  }

  /** After a logout the session no longer authenticates anyone. */
  lemma LogoutEndsSession(store: Store, sid: string, now: nat)
    ensures var s1 := Logout([String(sid)], store).store;
      IsAuthenticated(s1, sid, now) == Check(None, s1)
  {
  }

  /** The check is idempotent: asking twice at the same instant answers the same and
      changes nothing more. */
  lemma IsAuthenticatedIdempotent(store: Store, sid: string, now: nat)
    ensures var c := IsAuthenticated(store, sid, now);
      IsAuthenticated(c.store, sid, now) == c
  {
  }

  // ------------------------------------------------------------------
  // Application and response dictionaries
  // ------------------------------------------------------------------

  /** `create()`: an application with an empty route list. */
  function Create(): SValue
  {
    Dict(map[Key("routes") := List([])])
  }

  /** Appends a route to the application's "routes" list; an application without
      such a list is returned as it was. */
  function AddRoute(app: map<SValue, SValue>, route: SValue): (r: map<SValue, SValue>)
    ensures r.Keys == app.Keys
    ensures forall k :: k in app && k != Key("routes") ==> r[k] == app[k]
    ensures Key("routes") in app && app[Key("routes")].List? ==>
      r[Key("routes")] == List(app[Key("routes")].items + [route])
    ensures !(Key("routes") in app && app[Key("routes")].List?) ==> r == app
  {
    var routes := Key("routes");
    if routes in app && app[routes].List? then app[routes := List(app[routes].items + [route])]
    else app
  }

  /** The route dictionary `route` builds. */
  function RouteRecord(path: string, verb: string, handler: SValue, protected: bool): map<SValue, SValue>
  {
    map[Key("path") := String(path), Key("method") := String(verb),
        Key("handler") := handler, Key("protected") := Boolean(protected)]
  }

  /** `route(app, method, path, handler, [is_protected])`. */
  function Route(args: seq<SValue>): (r: Result<SValue, string>)
    ensures r.Ok? <==>
      && 4 <= |args| <= 5 && args[0].Dict? && args[1].String? && args[2].String? && args[3].Function?
      && (|args| == 5 ==> args[4].Boolean?)
    ensures r.Ok? ==>
      r.value == Dict(AddRoute(args[0].entries,
        Dict(RouteRecord(args[2].s, Upper(args[1].s), args[3], |args| == 5 && args[4].b))))
  {
    if |args| < 4 || |args| > 5 then
      Err("blaze.route espera 4 ou 5 argumentos: (app, method, path, handler, [is_protected])")
    else if !args[0].Dict? then Err("Primeiro argumento deve ser uma aplicação Blaze")
    else if !args[1].String? then Err("Segundo argumento (method) deve ser uma string")
    else if !args[2].String? then Err("Terceiro argumento (path) deve ser uma string")
    else if !args[3].Function? then Err("Quarto argumento (handler) deve ser uma função")
    else if |args| == 5 && !args[4].Boolean? then Err("Quinto argumento (is_protected) deve ser um booleano")
    else
      var protected := |args| == 5 && args[4].b;
      var route := RouteRecord(args[2].s, Upper(args[1].s), args[3], protected);
      Ok(Dict(AddRoute(args[0].entries, Dict(route))))
  }

  /** Registering a route on a fresh application gives it exactly that route, upper-
      cased method and unprotected unless a fifth argument says otherwise. */
  lemma RouteOnCreatedApp(verb: string, path: string, handler: string)
    ensures var r := Route([Create(), String(verb), String(path), Function(handler)]);
      && r.Ok?
      && r.value.entries[Key("routes")].items == [Dict(RouteRecord(path, Upper(verb), Function(handler), false))]
    ensures var r := Route([Create(), String(verb), String(path), Function(handler), Boolean(true)]);
      && r.Ok?
      && r.value.entries[Key("routes")].items == [Dict(RouteRecord(path, Upper(verb), Function(handler), true))]
  {
  }

  /** Routes accumulate in registration order. */
  lemma RoutesAccumulate(app: map<SValue, SValue>, a: seq<SValue>, b: seq<SValue>)
    requires Key("routes") in app && app[Key("routes")].List?
    requires |a| == 3 && |b| == 3
    requires Route([Dict(app)] + a).Ok?
    ensures var r1 := Route([Dict(app)] + a).value;
      Route([r1] + b).Ok? <==> Route([Dict(app)] + b).Ok?
    ensures var r1 := Route([Dict(app)] + a).value;
      Route([r1] + b).Ok? ==>
        |Route([r1] + b).value.entries[Key("routes")].items| == |app[Key("routes")].items| + 2
    ensures var r1 := Route([Dict(app)] + a).value;
      Route([r1] + b).Ok? ==>
        Route([r1] + b).value.entries[Key("routes")].items == app[Key("routes")].items +
          [Dict(RouteRecord(a[1].s, Upper(a[0].s), a[2], false)), Dict(RouteRecord(b[1].s, Upper(b[0].s), b[2], false))]
  {
    var r1 := Route([Dict(app)] + a).value;
    assert ([Dict(app)] + a)[1..] == a && ([r1] + b)[1..] == b && ([Dict(app)] + b)[1..] == b;
  }

  /** `serve_static(app, prefix, directory)`: a pseudo-route marked `_STATIC_ROUTE_`
      whose handler is the directory. Extra arguments are ignored. */
  function ServeStatic(args: seq<SValue>): (r: Result<SValue, string>)
    ensures r.Ok? <==> |args| >= 3 && args[0].Dict? && args[1].String? && args[2].String?
    ensures r.Ok? ==> r.value == Dict(AddRoute(args[0].entries, Dict(map[
      Key("path") := args[1], Key("method") := String("_STATIC_ROUTE_"), Key("handler") := args[2]])))
  {
    if |args| < 3 then Err("blaze.serve_static espera 3 argumentos: (app, url_path_prefix, fs_directory)")
    else if !args[0].Dict? then Err("Primeiro argumento (app) deve ser uma aplicação Blaze")
    else if !args[1].String? then Err("Segundo argumento (url_path_prefix) deve ser uma string")
    else if !args[2].String? then Err("Terceiro argumento (fs_directory) deve ser uma string")
    else
      var route := map[Key("path") := String(args[1].s), Key("method") := String("_STATIC_ROUTE_"),
                       Key("handler") := String(args[2].s)];
      Ok(Dict(AddRoute(args[0].entries, Dict(route))))
  }

  /** `response([body])`. */
  function Response(args: seq<SValue>): (r: SValue)
    ensures r.Dict? && r.entries.Keys == {Key("status"), Key("headers"), Key("body")}
    ensures r.entries[Key("status")] == Number(200.0) && r.entries[Key("headers")] == Dict(map[])
    ensures r.entries[Key("body")] == if |args| == 0 then String("") else args[0]
  {
    var body := if |args| == 0 then String("") else args[0];
    Dict(map[Key("status") := Number(200.0), Key("headers") := Dict(map[]), Key("body") := body])
  }

  /** The headers of a response, or none when it has no header dictionary. */
  function HeadersOf(res: map<SValue, SValue>): map<SValue, SValue>
  {
    if Key("headers") in res && res[Key("headers")].Dict? then res[Key("headers")].entries else map[]
  }

  /** `redirect(response, url)`: status 302 and a Location header, everything else
      kept. */
  function Redirect(args: seq<SValue>): (r: Result<SValue, string>)
    ensures r.Ok? <==> |args| == 2 && args[0].Dict? && args[1].String?
    ensures r.Ok? ==>
      var res := args[0].entries;
      && r.value.Dict?
      && r.value.entries.Keys == res.Keys + {Key("status"), Key("headers")}
      && r.value.entries[Key("status")] == Number(302.0)
      && (forall k :: k in res && k != Key("status") && k != Key("headers") ==> r.value.entries[k] == res[k])
      && r.value.entries[Key("headers")].Dict?
      && r.value.entries[Key("headers")].entries.Keys == HeadersOf(res).Keys + {Key("Location")}
      && r.value.entries[Key("headers")].entries[Key("Location")] == args[1]
      && (forall k :: k in HeadersOf(res) && k != Key("Location") ==>
            r.value.entries[Key("headers")].entries[k] == HeadersOf(res)[k])
  {
    if |args| != 2 then Err("blaze.redirect espera 2 argumentos: (response, url)")
    else if !args[0].Dict? then Err("Primeiro argumento (response) deve ser um objeto Response")
    else if !args[1].String? then Err("Segundo argumento (url) deve ser uma string")
    else
      var res := args[0].entries[Key("status") := Number(302.0)];
      var headers := HeadersOf(res)[Key("Location") := String(args[1].s)];
      Ok(Dict(res[Key("headers") := Dict(headers)]))
  }

  /** Redirecting a fresh response keeps its body and carries only the Location
      header. */
  lemma RedirectFreshResponse(body: seq<SValue>, url: string)
    ensures var r := Redirect([Response(body), String(url)]);
      && r.Ok?
      && r.value.entries[Key("status")] == Number(302.0)
      && r.value.entries[Key("headers")] == Dict(map[Key("Location") := String(url)])
      && r.value.entries[Key("body")] == Response(body).entries[Key("body")]
  {
    var r := Redirect([Response(body), String(url)]);
    assert r.value.entries[Key("headers")].entries == map[Key("Location") := String(url)];
  }

  /** Redirecting twice is redirecting to the second address. */
  lemma RedirectTwice(res: map<SValue, SValue>, a: string, b: string)
    ensures var r1 := Redirect([Dict(res), String(a)]);
      r1.Ok? && Redirect([r1.value, String(b)]) == Redirect([Dict(res), String(b)])
  {
    var r1 := Redirect([Dict(res), String(a)]).value.entries;
    var r2 := Redirect([Dict(r1), String(b)]).value.entries;
    var r3 := Redirect([Dict(res), String(b)]).value.entries;
    assert r2[Key("headers")] == r3[Key("headers")];
    assert r2 == r3;
  }

  /** The arguments at even positions, paired with the next one. */
  function Pairs(args: seq<SValue>): (ps: seq<(SValue, SValue)>)
    requires |args| % 2 == 0
    ensures |ps| * 2 == |args|
    ensures forall i :: 0 <= i < |ps| ==> ps[i] == (args[2 * i], args[2 * i + 1])
    decreases |args|
  {
    if |args| == 0 then [] else [(args[0], args[1])] + Pairs(args[2..])
  }

  /** Every pair's key is a string. */
  predicate StringKeys(ps: seq<(SValue, SValue)>)
  {
    forall i :: 0 <= i < |ps| ==> ps[i].0.String?
  }

  /** `create_dict(k1, v1, k2, v2, ...)`: keys must be strings; a later pair
      replaces an earlier one with the same key. */
  function CreateDict(args: seq<SValue>): (r: Result<SValue, string>)
    ensures r.Ok? <==> |args| % 2 == 0 && StringKeys(Pairs(args))
    ensures r.Ok? ==> r.value == Dict(InsertAll(map[], Pairs(args)))
  {
    if |args| % 2 != 0 then Err("blaze.create_dict espera um número par de argumentos (pares key-value)")
    else InsertPairs(args, map[])
  }

  /** The loop of `create_dict` over the remaining pairs. */
  function InsertPairs(args: seq<SValue>, acc: map<SValue, SValue>): (r: Result<SValue, string>)
    requires |args| % 2 == 0
    ensures r.Ok? <==> StringKeys(Pairs(args))
    ensures r.Ok? ==> r.value == Dict(InsertAll(acc, Pairs(args)))
    ensures r.Err? ==> r.error == "blaze.create_dict espera strings como chaves"
    decreases |args|
  {
    if |args| == 0 then Ok(Dict(acc))
    else
      var ps := Pairs(args);
      assert ps == [(args[0], args[1])] + Pairs(args[2..]);
      assert ps[1..] == Pairs(args[2..]);
      if !args[0].String? then
        assert !ps[0].0.String?;
        Err("blaze.create_dict espera strings como chaves")
      else
        assert StringKeys(ps) <==> StringKeys(ps[1..]) by {
          if StringKeys(ps[1..]) {
            forall i | 0 <= i < |ps| ensures ps[i].0.String? {
              if i > 0 { assert ps[i] == ps[1..][i - 1]; }
            }
          }
        }
        InsertPairs(args[2..], acc[args[0] := args[1]])
  }

  /** The key condition in the source's terms: the arguments at even positions are
      strings. */
  lemma StringKeysAtEvenPositions(args: seq<SValue>)
    requires |args| % 2 == 0
    ensures StringKeys(Pairs(args)) <==> forall i :: 0 <= i < |args| && i % 2 == 0 ==> args[i].String?
  {
    if StringKeys(Pairs(args)) {
      EvenKeysFromPairs(args);
    } else {
      PairsKeyAtEven(args);
    }
  }

  lemma PairsKeyAtEven(args: seq<SValue>)
    requires |args| % 2 == 0 && !StringKeys(Pairs(args))
    ensures exists i :: 0 <= i < |args| && i % 2 == 0 && !args[i].String?
  {
    var ps := Pairs(args);
    var k :| 0 <= k < |ps| && !ps[k].0.String?;
    var j := PairKeyIndex(args, k);
    assert 0 <= j < |args| && j % 2 == 0 && !args[j].String?;
  }

  /** Where the key of the k-th pair sits among the arguments. */
  lemma PairKeyIndex(args: seq<SValue>, k: nat) returns (j: nat)
    requires |args| % 2 == 0 && k < |Pairs(args)|
    ensures j < |args| && j % 2 == 0 && args[j] == Pairs(args)[k].0
  {
    j := 2 * k;
    assert Pairs(args)[k] == (args[j], args[j + 1]);
  }

  lemma EvenKeysFromPairs(args: seq<SValue>)
    requires |args| % 2 == 0 && StringKeys(Pairs(args))
    ensures forall i :: 0 <= i < |args| && i % 2 == 0 ==> args[i].String?
  {
    var ps := Pairs(args);
    forall i | 0 <= i < |args| && i % 2 == 0 ensures args[i].String? {
      var k := i / 2;
      assert i == 2 * k;
      assert ps[k].0 == args[2 * k];
    }
  }

  /** Each key of the built dictionary holds the value of its last pair. */
  lemma CreateDictLookup(args: seq<SValue>, i: nat)
    requires CreateDict(args).Ok?
    requires i < |args| / 2
    requires forall j :: i < j < |args| / 2 ==> args[2 * j] != args[2 * i]
    ensures args[2 * i] in CreateDict(args).value.entries
    ensures CreateDict(args).value.entries[args[2 * i]] == args[2 * i + 1]
  {
    var ps := Pairs(args);
    assert ps[i] == (args[2 * i], args[2 * i + 1]);
    assert LastOf(ps, i);
    assert args[2 * i] in KeysOf(ps);
  }

  // ------------------------------------------------------------------
  // The module table
  // ------------------------------------------------------------------

  /** What `create_module` inserts, in order. The earlier "response" entry is the
      sub-module of response helpers; the later one is the native `response`. */
  const ModuleInserts: seq<(string, SValue)> := [
    ("register", NativeFunction("register")),
    ("boolean", NativeFunction("boolean")),
    ("create", NativeFunction("create")),
    ("login", NativeFunction("login")),
    ("logout", NativeFunction("logout")),
    ("redirect", NativeFunction("redirect")),
    ("response", Dict(map[Key("set") := NativeFunction("set"), Key("status") := NativeFunction("status"),
                          Key("clear_cookie") := NativeFunction("clear_cookie")])),
    ("route", NativeFunction("route")),
    ("set_templates_dir", NativeFunction("set_templates_dir")),
    ("set_static_dir", NativeFunction("set_static_dir")),
    ("render_template", NativeFunction("render_template")),
    ("create_dict", NativeFunction("create_dict")),
    ("create_list", NativeFunction("create_list")),
    ("include_css", NativeFunction("include_css")),
    ("serve_static", NativeFunction("serve_static")),
    ("response", NativeFunction("response")),
    ("listen", NativeFunction("listen"))
  ]

  /** The module value: every insert applied in order, keys turned into strings. */
  function ModuleTable(): map<string, SValue>
  {
    InsertAll(map[], ModuleInserts)
  }

  /** The later insert wins: scripts see the native `response`, never the
      sub-module of response helpers. */
  lemma ResponseIsNative()
    ensures ModuleTable()["response"] == NativeFunction("response")
  {
    ModuleInsertsEnd();
    LastInsertWins(ModuleInserts);
  }

  lemma ModuleInsertsEnd()
    ensures |ModuleInserts| == 17
    ensures ModuleInserts[15] == ("response", NativeFunction("response"))
    ensures ModuleInserts[16].0 == "listen"
  {
  }

  /** The value of the last pair with a key is what the table holds for it. */
  lemma LastInsertWins(ps: seq<(string, SValue)>)
    requires |ps| >= 2 && ps[|ps| - 1].0 != ps[|ps| - 2].0
    ensures InsertAll(map[], ps)[ps[|ps| - 2].0] == ps[|ps| - 2].1
  {
    PenultimateIsLast(ps);
  }

  /** The next-to-last pair is the last with its key when the final pair has another key. */
  lemma PenultimateIsLast<V>(ps: seq<(string, V)>)
    requires |ps| >= 2 && ps[|ps| - 1].0 != ps[|ps| - 2].0
    ensures LastOf(ps, |ps| - 2)
  {
  }
}
