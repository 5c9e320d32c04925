/** The authentication module: a store of user accounts keyed by username and of
    sessions keyed by id, changed by the module's native functions. Password
    hashing, fresh ids and the clock are parameters. */
module BlazeAuth {
  import opened Base
  import opened Text
  import opened StdValue

  datatype AuthUser = AuthUser(id: string, username: string, email: string, hashedPassword: string,
                               createdAt: nat, isActive: bool)

  /** The IP address field is always empty when a session is created and is left out. */
  datatype AuthSession = AuthSession(id: string, userId: string, createdAt: nat, expiresAt: nat)

  datatype AuthStore = AuthStore(users: map<string, AuthUser>, sessions: map<string, AuthSession>)

  /** A session lasts seven days. */
  const SessionLifetime: nat := 3600 * 24 * 7

  const UsernameTooShort := "Username deve ter pelo menos 3 caracteres"
  const PasswordTooShort := "Senha deve ter pelo menos 6 caracteres"
  const InvalidEmail := "Email inválido"
  const UsernameTaken := "Username já existe"
  const EmailTaken := "Email já cadastrado"
  const AccountDisabled := "Conta desativada"
  const BadCredentials := "Credenciais inválidas"
  const NewPasswordTooShort := "Nova senha deve ter pelo menos 6 caracteres"
  const UserNotFound := "Usuário não encontrado"

  /** The reply `{sucesso: false, erro: message}`. */
  function Failure(message: string): SValue
  {
    Dict(map[Key("sucesso") := Boolean(false), Key("erro") := String(message)])
  }

  /** A reply whose `sucesso` field is true. */
  predicate Succeeded(r: Result<SValue, string>)
  {
    r.Ok? && r.value.Dict? && Key("sucesso") in r.value.entries && r.value.entries[Key("sucesso")] == Boolean(true)
  }

  /** Every user is stored under its own username. */
  ghost predicate KeyedByUsername(users: map<string, AuthUser>)
  {
    forall u :: u in users ==> users[u].username == u
  }

  /** No two accounts share an email. */
  ghost predicate UniqueEmails(users: map<string, AuthUser>)
  {
    forall u, v :: u in users && v in users && u != v ==> users[u].email != users[v].email
  }

  predicate EmailInUse(users: map<string, AuthUser>, email: string)
  {
    exists u :: u in users && users[u].email == email
  }

  /** Three string arguments, as the functions taking (username, x, y) demand. */
  predicate ThreeStrings(args: seq<SValue>)
  {
    |args| >= 3 && args[0].String? && args[1].String? && args[2].String?
  }

  /** `registrar(username, email, password)`. Lengths are UTF-8 byte counts. */
  function Registrar(args: seq<SValue>, store: AuthStore, hasher: Hasher, freshId: string, now: nat): (o: Outcome<AuthStore>)
    ensures !ThreeStrings(args) ==> o.result.Err? && o.store == store
    ensures ThreeStrings(args) ==>
      var username, email, password := args[0].s, args[1].s, args[2].s;
      && (Utf8Len(username) < 3 ==> o == Outcome(Ok(Failure(UsernameTooShort)), store))
      && (Utf8Len(username) >= 3 && Utf8Len(password) < 6 ==> o == Outcome(Ok(Failure(PasswordTooShort)), store))
      && (Utf8Len(username) >= 3 && Utf8Len(password) >= 6 && '@' !in email ==>
            o == Outcome(Ok(Failure(InvalidEmail)), store))
      && (Utf8Len(username) >= 3 && Utf8Len(password) >= 6 && '@' in email && username in store.users ==>
            o == Outcome(Ok(Failure(UsernameTaken)), store))
      && ((Utf8Len(username) >= 3 && Utf8Len(password) >= 6 && '@' in email && username !in store.users
           && EmailInUse(store.users, email)) ==> o == Outcome(Ok(Failure(EmailTaken)), store))
    ensures Succeeded(o.result) <==>
      && ThreeStrings(args) && Utf8Len(args[0].s) >= 3 && Utf8Len(args[2].s) >= 6 && '@' in args[1].s
      && args[0].s !in store.users && !EmailInUse(store.users, args[1].s) && hasher.hash(args[2].s).Some?
    ensures Succeeded(o.result) ==>
      && o.result == Ok(RegisterReply(freshId, args[0].s))
      && o.store == store.(users := store.users[args[0].s :=
           AuthUser(freshId, args[0].s, args[1].s, hasher.hash(args[2].s).value, now, true)])
    ensures !Succeeded(o.result) ==> o.store == store
  {
    if |args| < 3 then Outcome(Err("blaze.auth.registrar espera 3 argumentos: (username, email, password)"), store)
    else if !args[0].String? then Outcome(Err("Username deve ser string"), store)
    else if !args[1].String? then Outcome(Err("Email deve ser string"), store)
    else if !args[2].String? then Outcome(Err("Password deve ser string"), store)
    else
      var username, email, password := args[0].s, args[1].s, args[2].s;
      if Utf8Len(username) < 3 then Outcome(Ok(Failure(UsernameTooShort)), store)
      else if Utf8Len(password) < 6 then Outcome(Ok(Failure(PasswordTooShort)), store)
      else if '@' !in email then Outcome(Ok(Failure(InvalidEmail)), store)
      else if username in store.users then Outcome(Ok(Failure(UsernameTaken)), store)
      else if EmailInUse(store.users, email) then Outcome(Ok(Failure(EmailTaken)), store)
      else match hasher.hash(password)
        case None => Outcome(Err("Erro ao processar senha"), store)
        case Some(hashed) =>
          var user := AuthUser(freshId, username, email, hashed, now, true);
          assert RegisterReply(freshId, username).entries[Key("sucesso")] == Boolean(true);
          Outcome(Ok(RegisterReply(freshId, username)), store.(users := store.users[username := user]))
  }

  /** The reply to a successful registration. */
  function RegisterReply(id: string, username: string): SValue
  {
    Dict(map[Key("sucesso") := Boolean(true), Key("user_id") := String(id), Key("username") := String(username)])
  }

  /** The reply to a successful login. */
  function LoginReply(sid: string, user: AuthUser, username: string): SValue
  {
    Dict(map[Key("sucesso") := Boolean(true), Key("session_id") := String(sid),
             Key("user_id") := String(user.id), Key("username") := String(username)])
  }

  /** `login(username, password)`: a seven-day session for an active user whose
      password verifies. */
  function Login(args: seq<SValue>, store: AuthStore, hasher: Hasher, freshSession: string, now: nat): (o: Outcome<AuthStore>)
    ensures o.store.users == store.users
    ensures o.result.Err? <==> !(|args| >= 2 && args[0].String? && args[1].String?)
    ensures o.result.Ok? && args[0].s in store.users && !store.users[args[0].s].isActive ==>
      o == Outcome(Ok(Failure(AccountDisabled)), store)
    ensures Succeeded(o.result) <==>
      && |args| >= 2 && args[0].String? && args[1].String?
      && args[0].s in store.users && store.users[args[0].s].isActive
      && hasher.verify(args[1].s, store.users[args[0].s].hashedPassword)
    ensures Succeeded(o.result) ==>
      var user := store.users[args[0].s];
      && o.result == Ok(LoginReply(freshSession, user, args[0].s))
      && o.store.sessions == store.sessions[freshSession := AuthSession(freshSession, user.id, now, now + SessionLifetime)]
    ensures o.result.Ok? && !Succeeded(o.result) && !(args[0].s in store.users && !store.users[args[0].s].isActive) ==>
      o == Outcome(Ok(Failure(BadCredentials)), store)
    ensures o.result.Err? ==> o.store == store
  {
    if |args| < 2 then Outcome(Err("blaze.auth.login espera 2 argumentos: (username, password)"), store)
    else if !args[0].String? then Outcome(Err("Username deve ser string"), store)
    else if !args[1].String? then Outcome(Err("Password deve ser string"), store)
    else
      var username, password := args[0].s, args[1].s;
      if username in store.users && !store.users[username].isActive then
        Outcome(Ok(Failure(AccountDisabled)), store)
      else if username in store.users && hasher.verify(password, store.users[username].hashedPassword) then
        var user := store.users[username];
        var session := AuthSession(freshSession, user.id, now, now + SessionLifetime);
        assert LoginReply(freshSession, user, username).entries[Key("sucesso")] == Boolean(true);
        Outcome(Ok(LoginReply(freshSession, user, username)), store.(sessions := store.sessions[freshSession := session]))
      else Outcome(Ok(Failure(BadCredentials)), store)
  }

  /** `logout(session_id)`: the session is removed; `sucesso` says whether it existed. */
  function Logout(args: seq<SValue>, store: AuthStore): (o: Outcome<AuthStore>)
    ensures o.result.Ok? <==> |args| >= 1 && args[0].String?
    ensures o.store.users == store.users
    ensures o.result.Ok? ==>
      && o.store.sessions == store.sessions - {args[0].s}
      && o.result.value == Dict(map[Key("sucesso") := Boolean(args[0].s in store.sessions)])
    ensures o.result.Err? ==> o.store == store
  {
    if |args| < 1 then Outcome(Err("blaze.auth.logout espera 1 argumento: (session_id)"), store)
    else if !args[0].String? then Outcome(Err("Session ID deve ser string"), store)
    else
      var sid := args[0].s;
      Outcome(Ok(Dict(map[Key("sucesso") := Boolean(sid in store.sessions)])),
              store.(sessions := store.sessions - {sid}))
  }

  /** order[j] is the first visited user whose id is `id`. */
  predicate FirstWithId(users: map<string, AuthUser>, order: seq<string>, id: string, j: int)
  {
    && 0 <= j < |order| && order[j] in users && users[order[j]].id == id
    && forall i :: 0 <= i < j && order[i] in users ==> users[order[i]].id != id
  }

  /** `users.values().find(|u| u.id == id)`, the values visited in the given order. */
  function FindById(users: map<string, AuthUser>, order: seq<string>, id: string): (r: Option<AuthUser>)
    ensures r.Some? ==> r.value.id == id && exists k :: k in order && k in users && users[k] == r.value
    ensures r.None? ==> forall k :: k in order && k in users ==> users[k].id != id
    ensures r.Some? ==> exists j :: FirstWithId(users, order, id, j) && users[order[j]] == r.value
  {
    if |order| == 0 then None
    else if order[0] in users && users[order[0]].id == id then Some(users[order[0]])
    else FindById(users, order[1..], id)
  }

  /** With distinct ids, the search order does not matter. */
  lemma FindByIdUnique(users: map<string, AuthUser>, order: seq<string>, id: string, u: string)
    requires Enumerates(order, users.Keys)
    requires u in users && users[u].id == id
    requires forall v :: v in users && v != u ==> users[v].id != id
    ensures FindById(users, order, id) == Some(users[u])
  {
  }

  /** The live session's user, if both exist. */
  function LiveUser(store: AuthStore, order: seq<string>, sid: string, now: nat): Option<AuthUser>
  {
    if sid in store.sessions && now < store.sessions[sid].expiresAt
    then FindById(store.users, order, store.sessions[sid].userId)
    else None
  }

  /** `verificar_sessao(session_id)`: valid while unexpired and its user exists; an
      expired session is dropped, a live one whose user is gone is kept. */
  function VerificarSessao(args: seq<SValue>, store: AuthStore, order: seq<string>, now: nat): (o: Outcome<AuthStore>)
    ensures o.result.Ok? <==> |args| >= 1 && args[0].String?
    ensures o.store.users == store.users
    ensures o.result.Ok? ==>
      var sid := args[0].s;
      && o.result.value.Dict? && Key("valido") in o.result.value.entries
      && o.result.value.entries[Key("valido")] == Boolean(LiveUser(store, order, sid, now).Some?)
      && (LiveUser(store, order, sid, now).Some? ==>
            var user := LiveUser(store, order, sid, now).value;
            && user.id == store.sessions[sid].userId
            && Key("user_id") in o.result.value.entries
            && o.result.value.entries[Key("user_id")] == String(store.sessions[sid].userId)
            && Key("username") in o.result.value.entries && Key("email") in o.result.value.entries
            && o.result.value.entries[Key("username")] == String(user.username)
            && o.result.value.entries[Key("email")] == String(user.email))
      && o.store.sessions == if sid in store.sessions && now >= store.sessions[sid].expiresAt
                             then store.sessions - {sid} else store.sessions
    ensures o.result.Err? ==> o.store == store
  {
    if |args| < 1 then Outcome(Err("blaze.auth.verificar_sessao espera 1 argumento: (session_id)"), store)
    else if !args[0].String? then Outcome(Err("Session ID deve ser string"), store)
    else
      var sid := args[0].s;
      var invalid := Dict(map[Key("valido") := Boolean(false)]);
      if sid in store.sessions then
        var session := store.sessions[sid];
        if now < session.expiresAt then
          match FindById(store.users, order, session.userId)
          case Some(user) =>
            Outcome(Ok(Dict(map[Key("valido") := Boolean(true), Key("user_id") := String(user.id),
                                Key("username") := String(user.username), Key("email") := String(user.email)])), store)
          case None => Outcome(Ok(invalid), store)
        else Outcome(Ok(invalid), store.(sessions := store.sessions - {sid}))
      else Outcome(Ok(invalid), store)
  }

  /** `usuario_atual(session_id)`: the live session's user as a dictionary, or nil.
      It reads the store and never changes it. */
  function UsuarioAtual(args: seq<SValue>, store: AuthStore, order: seq<string>, now: nat): (r: Result<SValue, string>)
    ensures r.Ok? <==> |args| >= 1 && args[0].String?
    ensures r.Ok? ==> (r.value == Nil <==> LiveUser(store, order, args[0].s, now).None?)
    ensures r.Ok? && r.value != Nil ==>
      var user := LiveUser(store, order, args[0].s, now).value;
      r.value == Dict(map[Key("id") := String(user.id), Key("username") := String(user.username),
                          Key("email") := String(user.email), Key("ativo") := Boolean(user.isActive)])
  {
    if |args| < 1 then Err("blaze.auth.usuario_atual espera 1 argumento: (session_id)")
    else if !args[0].String? then Err("Session ID deve ser string")
    else
      match LiveUser(store, order, args[0].s, now)
      case None => Ok(Nil)
      case Some(user) =>
        Ok(Dict(map[Key("id") := String(user.id), Key("username") := String(user.username),
                    Key("email") := String(user.email), Key("ativo") := Boolean(user.isActive)]))
  }

  /** `alterar_senha(username, old, new)`: the length of the new password is checked
      before anything is looked up; an inactive account may still change it. */
  function AlterarSenha(args: seq<SValue>, store: AuthStore, hasher: Hasher): (o: Outcome<AuthStore>)
    ensures o.store.sessions == store.sessions
    ensures !ThreeStrings(args) ==> o.result.Err? && o.store == store
    ensures ThreeStrings(args) && Utf8Len(args[2].s) < 6 ==> o == Outcome(Ok(Failure(NewPasswordTooShort)), store)
    ensures Succeeded(o.result) <==>
      && ThreeStrings(args) && Utf8Len(args[2].s) >= 6 && args[0].s in store.users
      && hasher.verify(args[1].s, store.users[args[0].s].hashedPassword) && hasher.hash(args[2].s).Some?
    ensures Succeeded(o.result) ==>
      o.store.users == store.users[args[0].s := store.users[args[0].s].(hashedPassword := hasher.hash(args[2].s).value)]
    ensures ThreeStrings(args) && Utf8Len(args[2].s) >= 6 && !Succeeded(o.result) ==>
      o.store == store && (o.result.Ok? <==> o.result == Ok(Failure(BadCredentials)))
  {
    if |args| < 3 then Outcome(Err("blaze.auth.alterar_senha espera 3 argumentos: (username, senha_antiga, senha_nova)"), store)
    else if !args[0].String? then Outcome(Err("Username deve ser string"), store)
    else if !args[1].String? then Outcome(Err("Senha antiga deve ser string"), store)
    else if !args[2].String? then Outcome(Err("Senha nova deve ser string"), store)
    else
      var username, oldPassword, newPassword := args[0].s, args[1].s, args[2].s;
      if Utf8Len(newPassword) < 6 then Outcome(Ok(Failure(NewPasswordTooShort)), store)
      else if username in store.users && hasher.verify(oldPassword, store.users[username].hashedPassword) then
        match hasher.hash(newPassword)
        case None => Outcome(Err("Erro ao processar nova senha"), store)
        case Some(newHash) =>
          var user := store.users[username].(hashedPassword := newHash);
          assert map[Key("sucesso") := Boolean(true)][Key("sucesso")] == Boolean(true);
          Outcome(Ok(Dict(map[Key("sucesso") := Boolean(true)])), store.(users := store.users[username := user]))
      else Outcome(Ok(Failure(BadCredentials)), store)
  }

  /** The dictionary `listar_usuarios` shows for one account. */
  function UserSummary(user: AuthUser): SValue
  {
    Dict(map[Key("id") := String(user.id), Key("username") := String(user.username),
             Key("email") := String(user.email), Key("ativo") := Boolean(user.isActive)])
  }

  /** `listar_usuarios()`: one summary per account, in the store's iteration order. */
  function ListarUsuarios(store: AuthStore, order: seq<string>): (r: SValue)
    ensures r.List?
    ensures forall i :: 0 <= i < |r.items| ==> exists u :: u in store.users && r.items[i] == UserSummary(store.users[u])
    ensures forall u :: u in store.users && u in order ==> UserSummary(store.users[u]) in r.items
    ensures Enumerates(order, store.users.Keys) ==>
              |r.items| == |order| && forall i :: 0 <= i < |order| ==> r.items[i] == UserSummary(store.users[order[i]])
  {
    var es := EntriesOf(store.users, order);
    var items := seq(|es|, i requires 0 <= i < |es| => UserSummary(es[i].1));
    assert forall u :: u in store.users && u in order ==> UserSummary(store.users[u]) in items by {
      forall u | u in store.users && u in order ensures UserSummary(store.users[u]) in items {
        var i :| 0 <= i < |es| && es[i].0 == u;
        assert items[i] == UserSummary(store.users[u]);
      }
    }
    List(items)
  }

  /** `desativar_usuario(username)`: only the named account is deactivated. */
  function DesativarUsuario(args: seq<SValue>, store: AuthStore): (o: Outcome<AuthStore>)
    ensures o.result.Ok? <==> |args| >= 1 && args[0].String?
    ensures o.store.sessions == store.sessions
    ensures o.result.Ok? ==>
      if args[0].s in store.users then
        && o.result.value == Dict(map[Key("sucesso") := Boolean(true)])
        && o.store.users == store.users[args[0].s := store.users[args[0].s].(isActive := false)]
      else o.result.value == Failure(UserNotFound) && o.store == store
    ensures o.result.Err? ==> o.store == store
  {
    if |args| < 1 then Outcome(Err("blaze.auth.desativar_usuario espera 1 argumento: (username)"), store)
    else if !args[0].String? then Outcome(Err("Username deve ser string"), store)
    else
      var username := args[0].s;
      if username in store.users then
        var user := store.users[username].(isActive := false);
        Outcome(Ok(Dict(map[Key("sucesso") := Boolean(true)])), store.(users := store.users[username := user]))
      else Outcome(Ok(Failure(UserNotFound)), store)
  }

  // ------------------------------------------------------------------
  // Properties relating the operations
  // ------------------------------------------------------------------

  /** The store's shape: accounts under their own usernames, emails unique. */
  ghost predicate Valid(store: AuthStore)
  {
    KeyedByUsername(store.users) && UniqueEmails(store.users)
  }

  /** Registration keeps the store's shape: the duplicate checks are what keep
      emails unique. */
  lemma RegistrarKeepsValid(store: AuthStore, args: seq<SValue>, hasher: Hasher, id: string, now: nat)
    requires Valid(store)
    ensures Valid(Registrar(args, store, hasher, id, now).store)
  {
    var o := Registrar(args, store, hasher, id, now);
    if Succeeded(o.result) {
      var users := o.store.users;
      var name, email := args[0].s, args[1].s;
      assert !EmailInUse(store.users, email);
      forall u, v | u in users && v in users && u != v ensures users[u].email != users[v].email {
        if u == name {
          assert users[v] == store.users[v];
          assert store.users[v].email != email;
        } else if v == name {
          assert users[u] == store.users[u];
          assert store.users[u].email != email;
        }
      }
    }
  }

  /** Changing one account's fields other than its username and email keeps the
      store's shape. */
  lemma ReplaceKeepsValid(store: AuthStore, name: string, user: AuthUser)
    requires Valid(store) && name in store.users
    requires user.username == name && user.email == store.users[name].email
    ensures Valid(store.(users := store.users[name := user]))
  {
    var users := store.users[name := user];
    forall u, v | u in users && v in users && u != v ensures users[u].email != users[v].email {
      assert users[u].email == store.users[u].email;
      assert users[v].email == store.users[v].email;
    }
  }

  /** Logging in, changing a password and deactivating keep the store's shape. */
  lemma UpdatesKeepValid(store: AuthStore, args: seq<SValue>, hasher: Hasher, sid: string, now: nat)
    requires Valid(store)
    ensures Valid(Login(args, store, hasher, sid, now).store)
    ensures Valid(AlterarSenha(args, store, hasher).store)
    ensures Valid(DesativarUsuario(args, store).store)
  {
    var a := AlterarSenha(args, store, hasher);
    if Succeeded(a.result) {
      ReplaceKeepsValid(store, args[0].s, store.users[args[0].s].(hashedPassword := hasher.hash(args[2].s).value));
    }
    var d := DesativarUsuario(args, store);
    if d.result.Ok? && args[0].s in store.users {
      ReplaceKeepsValid(store, args[0].s, store.users[args[0].s].(isActive := false));
    }
  }

  /** What a registration that passes every check stores. */
  lemma RegistrarStores(store: AuthStore, hasher: Hasher, username: string, email: string, password: string,
                        id: string, now: nat)
    requires Utf8Len(username) >= 3 && Utf8Len(password) >= 6 && '@' in email
    requires username !in store.users && !EmailInUse(store.users, email)
    requires hasher.hash(password).Some?
    ensures Registrar([String(username), String(email), String(password)], store, hasher, id, now).store.users
            == store.users[username := AuthUser(id, username, email, hasher.hash(password).value, now, true)]
  {
    assert ThreeStrings([String(username), String(email), String(password)]);
  }

  /** A successful login's session, found again through the session queries. */
  lemma LoginSessionLive(store: AuthStore, hasher: Hasher, username: string, password: string,
                         sid: string, order: seq<string>, t1: nat, t2: nat)
    requires username in store.users && store.users[username].isActive
    requires hasher.verify(password, store.users[username].hashedPassword)
    requires forall u :: u in store.users && u != username ==> store.users[u].id != store.users[username].id
    ensures var o := Login([String(username), String(password)], store, hasher, sid, t1);
      && o.result == Ok(LoginReply(sid, store.users[username], username))
      && (Enumerates(order, store.users.Keys) ==>
            (LiveUser(o.store, order, sid, t2).Some? <==> t2 < t1 + SessionLifetime))
  {
    var o := Login([String(username), String(password)], store, hasher, sid, t1);
    assert Succeeded(o.result);
    assert o.store.sessions[sid] == AuthSession(sid, store.users[username].id, t1, t1 + SessionLifetime);
    if Enumerates(order, store.users.Keys) && t2 < t1 + SessionLifetime {
      FindByIdUnique(o.store.users, order, store.users[username].id, username);
    }
  }

  /** A fresh registration can log in with its password, and the session is valid
      for seven days from the login and no longer. */
  lemma RegistrarThenLogin(store: AuthStore, hasher: Hasher, username: string, email: string, password: string,
                           id: string, sid: string, order: seq<string>, t0: nat, t1: nat, t2: nat)
    requires Utf8Len(username) >= 3 && Utf8Len(password) >= 6 && '@' in email
    requires username !in store.users && !EmailInUse(store.users, email)
    requires hasher.hash(password).Some? && Accepts(hasher, password)
    requires forall u :: u in store.users ==> store.users[u].id != id
    ensures var s1 := Registrar([String(username), String(email), String(password)], store, hasher, id, t0).store;
      var o := Login([String(username), String(password)], s1, hasher, sid, t1);
      && o.result == Ok(LoginReply(sid, s1.users[username], username))
      && (Enumerates(order, s1.users.Keys) ==>
            (LiveUser(o.store, order, sid, t2).Some? <==> t2 < t1 + SessionLifetime))
  {
    var s1 := Registrar([String(username), String(email), String(password)], store, hasher, id, t0).store;
    RegisteredUserDistinct(store, hasher, username, email, password, id, t0);
    LoginSessionLive(s1, hasher, username, password, sid, order, t1, t2);
  }

  /** The user a registration stores is active, verifies its password, and has an
      id no other user has. */
  lemma RegisteredUserDistinct(store: AuthStore, hasher: Hasher, username: string, email: string, password: string,
                               id: string, t0: nat)
    requires Utf8Len(username) >= 3 && Utf8Len(password) >= 6 && '@' in email
    requires username !in store.users && !EmailInUse(store.users, email)
    requires hasher.hash(password).Some? && Accepts(hasher, password)
    requires forall u :: u in store.users ==> store.users[u].id != id
    ensures var s1 := Registrar([String(username), String(email), String(password)], store, hasher, id, t0).store;
      && username in s1.users && s1.users[username].isActive
      && hasher.verify(password, s1.users[username].hashedPassword)
      && (forall u :: u in s1.users && u != username ==> s1.users[u].id != s1.users[username].id)
  {
    var s1 := Registrar([String(username), String(email), String(password)], store, hasher, id, t0).store;
    RegistrarStores(store, hasher, username, email, password, id, t0);
    assert s1.users[username] == AuthUser(id, username, email, hasher.hash(password).value, t0, true);
    forall u | u in s1.users && u != username ensures s1.users[u].id != id {
      assert s1.users[u] == store.users[u];
    }
  }

  /** A deactivated account cannot log in, whatever the password. */
  lemma DeactivatedCannotLogin(store: AuthStore, username: string, password: string, hasher: Hasher, sid: string, now: nat)
    requires username in store.users
    ensures var s1 := DesativarUsuario([String(username)], store).store;
      Login([String(username), String(password)], s1, hasher, sid, now) == Outcome(Ok(Failure(AccountDisabled)), s1)
  {
  }

  /** After a password change the new password logs in (the account being active). */
  lemma ChangedPasswordLogsIn(store: AuthStore, username: string, previous: string, next: string, hasher: Hasher, sid: string, now: nat)
    requires username in store.users && store.users[username].isActive
    requires hasher.verify(previous, store.users[username].hashedPassword)
    requires Utf8Len(next) >= 6 && hasher.hash(next).Some? && Accepts(hasher, next)
    ensures var s1 := AlterarSenha([String(username), String(previous), String(next)], store, hasher).store;
      Login([String(username), String(next)], s1, hasher, sid, now).result
        == Ok(LoginReply(sid, s1.users[username], username))
  {
  }

  /** After a logout the session is invalid and names no current user. */
  lemma LogoutInvalidates(store: AuthStore, sid: string, order: seq<string>, now: nat)
    ensures var s1 := Logout([String(sid)], store).store;
      && VerificarSessao([String(sid)], s1, order, now) == Outcome(Ok(Dict(map[Key("valido") := Boolean(false)])), s1)
      && UsuarioAtual([String(sid)], s1, order, now) == Ok(Nil)
  {
  }

  /** The two session queries agree: a session is valid exactly when there is a
      current user. */
  lemma QueriesAgree(store: AuthStore, sid: string, order: seq<string>, now: nat)
    ensures VerificarSessao([String(sid)], store, order, now).result.value.entries[Key("valido")] == Boolean(true)
        <==> UsuarioAtual([String(sid)], store, order, now).value != Nil
  {
  }
}
