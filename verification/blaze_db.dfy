/** The SQLite module: the SQL text and parameter list each native function builds
    from its arguments, and the connection guard in front of it. Opening the file
    and running the statement are foreign calls: the model stops at the statement
    that would be run. */
module BlazeDb {
  import opened Base
  import opened Text
  import opened StdValue

  /** The module's one global: whether a connection has been opened. */
  datatype Db = Db(connected: bool)

  /** A statement handed to SQLite, with its positional parameters. */
  datatype Statement = Statement(sql: string, params: seq<string>)

  /** f64 `Display`, the value type's `Display`, and a dictionary's iteration order. */
  datatype DbHost = DbHost(number: real -> string, render: SValue -> string,
                           keyOrder: map<SValue, SValue> -> seq<SValue>)

  const NotConnected := "Banco de dados não conectado"
  const TableNameNotString := "Nome da tabela deve ser string"
  const ConditionNotString := "Condição deve ser string"
  const DataNotDict := "Dados devem ser um dicionário"

  /** The entries of a dictionary in the host's iteration order. */
  function Entries(host: DbHost, d: map<SValue, SValue>): seq<(SValue, SValue)>
  {
    EntriesOf(d, host.keyOrder(d))
  }

  /** How a value becomes a statement parameter. */
  function ParamText(host: DbHost, v: SValue): (t: string)
    ensures v.String? ==> t == v.s
    ensures v.Boolean? ==> t == if v.b then "1" else "0"
    ensures v.Number? ==> t == host.number(v.n)
    ensures !(v.String? || v.Boolean? || v.Number?) ==> t == host.render(v)
  {
    match v
    case String(s) => s
    case Number(n) => host.number(n)
    case Boolean(b) => if b then "1" else "0"
    case _ => host.render(v)
  }

  /** The entries whose key is a string, in order, with the key unwrapped. */
  function StringKeyed(es: seq<(SValue, SValue)>): (r: seq<(string, SValue)>)
    ensures |r| <= |es|
    ensures forall i :: 0 <= i < |r| ==> (String(r[i].0), r[i].1) in es
    ensures forall j :: 0 <= j < |es| && es[j].0.String? ==> (es[j].0.s, es[j].1) in r
    ensures |es| == 1 ==> r == if es[0].0.String? then [(es[0].0.s, es[0].1)] else []
  {
    if |es| == 0 then []
    else
      var rest := StringKeyed(es[1..]);
      assert forall j :: 1 <= j < |es| ==> es[j] == es[1..][j - 1];
      if es[0].0.String? then [(es[0].0.s, es[0].1)] + rest else rest
  }

  /** The entries mapping a string to a string, in order, both sides unwrapped. */
  function StringPairs(es: seq<(SValue, SValue)>): (r: seq<(string, string)>)
    ensures |r| <= |es|
    ensures forall i :: 0 <= i < |r| ==> (String(r[i].0), String(r[i].1)) in es
    ensures forall j :: 0 <= j < |es| && es[j].0.String? && es[j].1.String? ==> (es[j].0.s, es[j].1.s) in r
    ensures |es| == 1 ==> r == if es[0].0.String? && es[0].1.String? then [(es[0].0.s, es[0].1.s)] else []
  {
    if |es| == 0 then []
    else
      var rest := StringPairs(es[1..]);
      assert forall j :: 1 <= j < |es| ==> es[j] == es[1..][j - 1];
      if es[0].0.String? && es[0].1.String? then [(es[0].0.s, es[0].1.s)] + rest else rest
  }

  /** StringKeyed is a filter: it distributes over concatenation, so with its
      one-element clause it keeps exactly the string-keyed entries, in order. */
  lemma {:induction false} StringKeyedConcat(a: seq<(SValue, SValue)>, b: seq<(SValue, SValue)>)
    ensures StringKeyed(a + b) == StringKeyed(a) + StringKeyed(b)
    decreases |a|
  {
    if |a| > 0 {
      assert (a + b)[0] == a[0] && (a + b)[1..] == a[1..] + b;
      StringKeyedConcat(a[1..], b);
    } else {
      assert a + b == b;
    }
  }

  /** StringPairs is a filter in the same sense as StringKeyed. */
  lemma {:induction false} StringPairsConcat(a: seq<(SValue, SValue)>, b: seq<(SValue, SValue)>)
    ensures StringPairs(a + b) == StringPairs(a) + StringPairs(b)
    decreases |a|
  {
    if |a| > 0 {
      assert (a + b)[0] == a[0] && (a + b)[1..] == a[1..] + b;
      StringPairsConcat(a[1..], b);
    } else {
      assert a + b == b;
    }
  }

  /** `"{name} {type}"` for each entry mapping a string to a string, in order. */
  function ColumnDefs(es: seq<(SValue, SValue)>): seq<string>
  {
    var ps := StringPairs(es);
    seq(|ps|, i requires 0 <= i < |ps| => ps[i].0 + " " + ps[i].1)
  }

  /** `" WHERE {c}"` when the optional second argument is a string, else nothing. */
  function OptionalWhere(args: seq<SValue>): string
  {
    if |args| > 1 && args[1].String? then " WHERE " + args[1].s else ""
  }

  /** `conectar(path)`: `openOk` says whether SQLite could open the file, `reason`
      is its error otherwise. */
  function Conectar(args: seq<SValue>, db: Db, openOk: bool, reason: string): (o: Outcome<Db>)
    ensures o.result.Ok? <==> |args| >= 1 && args[0].String?
    ensures o.store.connected <==> db.connected || (o.result.Ok? && openOk)
    ensures o.result.Ok? ==>
      o.result.value.Dict? && Key("sucesso") in o.result.value.entries
      && o.result.value.entries[Key("sucesso")] == Boolean(openOk)
  {
    if |args| == 0 then Outcome(Err("blaze_db.conectar espera 1 argumento: (caminho_db)"), db)
    else if !args[0].String? then Outcome(Err("Caminho do banco deve ser string"), db)
    else if openOk then
      Outcome(Ok(Dict(map[Key("sucesso") := Boolean(true), Key("mensagem") := String("Conectado a " + args[0].s)])),
              Db(true))
    else
      Outcome(Ok(Dict(map[Key("sucesso") := Boolean(false), Key("erro") := String("Erro ao conectar: " + reason)])), db)
  }

  /** `executar(sql)`: the text as given, without parameters. */
  function Executar(args: seq<SValue>, db: Db): (r: Result<Statement, string>)
    ensures r.Ok? <==> |args| >= 1 && args[0].String? && db.connected
    ensures r.Ok? ==> r.value == Statement(args[0].s, [])
    ensures |args| >= 1 && args[0].String? && !db.connected ==>
      r == Err("Banco de dados não conectado. Use blaze_db.conectar() primeiro.")
  {
    if |args| == 0 then Err("blaze_db.executar espera 1 argumento: (sql)")
    else if !args[0].String? then Err("SQL deve ser string")
    else if !db.connected then Err("Banco de dados não conectado. Use blaze_db.conectar() primeiro.")
    else Ok(Statement(args[0].s, []))
  }

  /** `criar_tabela(name, columns)`. */
  function CriarTabela(args: seq<SValue>, db: Db, host: DbHost): (r: Result<Statement, string>)
    ensures r.Ok? <==> |args| >= 2 && args[0].String? && args[1].Dict? && db.connected
    ensures |args| >= 2 && args[0].String? && args[1].Dict? && !db.connected ==> r == Err(NotConnected)
    ensures r.Ok? ==>
      var defs := ColumnDefs(Entries(host, args[1].entries));
      r.value == Statement("CREATE TABLE IF NOT EXISTS " + args[0].s + " (" + Join(defs, ", ") + ")", [])
  {
    if |args| < 2 then Err("blaze_db.criar_tabela espera 2 argumentos: (nome, colunas)")
    else if !args[0].String? then Err(TableNameNotString)
    else if !args[1].Dict? then Err("Colunas devem ser um dicionário")
    else
      var defs := ColumnDefs(Entries(host, args[1].entries));
      var sql := "CREATE TABLE IF NOT EXISTS " + args[0].s + " (" + Join(defs, ", ") + ")";
      if !db.connected then Err(NotConnected) else Ok(Statement(sql, []))
  }

  /** `inserir(table, data)`: one column, one `?` and one parameter per string key. */
  function Inserir(args: seq<SValue>, db: Db, host: DbHost): (r: Result<Statement, string>)
    ensures r.Ok? <==> |args| >= 2 && args[0].String? && args[1].Dict? && db.connected
    ensures |args| >= 2 && args[0].String? && args[1].Dict? && !db.connected ==> r == Err(NotConnected)
    ensures r.Ok? ==>
      var kv := StringKeyed(Entries(host, args[1].entries));
      && |r.value.params| == |kv|
      && (forall i :: 0 <= i < |kv| ==> r.value.params[i] == ParamText(host, kv[i].1))
      && r.value.sql == "INSERT INTO " + args[0].s
           + " (" + Join(seq(|kv|, i requires 0 <= i < |kv| => kv[i].0), ", ")
           + ") VALUES (" + Join(seq(|kv|, _ => "?"), ", ") + ")"
  {
    if |args| < 2 then Err("blaze_db.inserir espera 2 argumentos: (tabela, dados)")
    else if !args[0].String? then Err(TableNameNotString)
    else if !args[1].Dict? then Err(DataNotDict)
    else
      var kv := StringKeyed(Entries(host, args[1].entries));
      var columns := seq(|kv|, i requires 0 <= i < |kv| => kv[i].0);
      var placeholders := seq(|kv|, _ => "?");
      var values := seq(|kv|, i requires 0 <= i < |kv| => ParamText(host, kv[i].1));
      var sql := "INSERT INTO " + args[0].s + " (" + Join(columns, ", ") + ") VALUES (" + Join(placeholders, ", ") + ")";
      if !db.connected then Err(NotConnected) else Ok(Statement(sql, values))
  }

  /** `consultar` and `contar` share their shape: `select` (the text up to the
      table name), the table, then the optional condition; `name` only appears in
      the arity error. */
  function Select(name: string, select: string, args: seq<SValue>, db: Db): (r: Result<Statement, string>)
    ensures r.Ok? <==> |args| >= 1 && args[0].String? && db.connected
    ensures |args| >= 1 && args[0].String? && !db.connected ==> r == Err(NotConnected)
    ensures r.Ok? ==> r.value == Statement(select + args[0].s + OptionalWhere(args), [])
  {
    if |args| == 0 then Err("blaze_db." + name + " espera 1-2 argumentos: (tabela, [condicao])")
    else if !args[0].String? then Err(TableNameNotString)
    else
      var sql := select + args[0].s + OptionalWhere(args);
      if !db.connected then Err(NotConnected) else Ok(Statement(sql, []))
  }

  /** `consultar(table, [condition])`. */
  function Consultar(args: seq<SValue>, db: Db): (r: Result<Statement, string>)
    ensures r.Ok? <==> |args| >= 1 && args[0].String? && db.connected
    ensures |args| >= 1 && args[0].String? && !db.connected ==> r == Err(NotConnected)
    ensures r.Ok? ==> r.value == Statement("SELECT * FROM " + args[0].s + OptionalWhere(args), [])
  {
    Select("consultar", "SELECT * FROM ", args, db)
  }

  /** `atualizar(table, data, condition)`: `"{c} = ?"` per string key. */
  function Atualizar(args: seq<SValue>, db: Db, host: DbHost): (r: Result<Statement, string>)
    ensures r.Ok? <==> |args| >= 3 && args[0].String? && args[1].Dict? && args[2].String? && db.connected
    ensures |args| >= 3 && args[0].String? && args[1].Dict? && !args[2].String? ==> r == Err(ConditionNotString)
    ensures |args| >= 3 && args[0].String? && args[1].Dict? && args[2].String? && !db.connected ==> r == Err(NotConnected)
    ensures r.Ok? ==>
      var kv := StringKeyed(Entries(host, args[1].entries));
      && |r.value.params| == |kv|
      && (forall i :: 0 <= i < |kv| ==> r.value.params[i] == ParamText(host, kv[i].1))
      && r.value.sql == "UPDATE " + args[0].s + " SET "
           + Join(seq(|kv|, i requires 0 <= i < |kv| => kv[i].0 + " = ?"), ", ") + " WHERE " + args[2].s
  {
    if |args| < 3 then Err("blaze_db.atualizar espera 3 argumentos: (tabela, dados, condicao)")
    else if !args[0].String? then Err(TableNameNotString)
    else if !args[1].Dict? then Err(DataNotDict)
    else if !args[2].String? then Err(ConditionNotString)
    else
      var kv := StringKeyed(Entries(host, args[1].entries));
      var clauses := seq(|kv|, i requires 0 <= i < |kv| => kv[i].0 + " = ?");
      var values := seq(|kv|, i requires 0 <= i < |kv| => ParamText(host, kv[i].1));
      var sql := "UPDATE " + args[0].s + " SET " + Join(clauses, ", ") + " WHERE " + args[2].s;
      if !db.connected then Err(NotConnected) else Ok(Statement(sql, values))
  }

  /** `deletar(table, condition)`. */
  function Deletar(args: seq<SValue>, db: Db): (r: Result<Statement, string>)
    ensures r.Ok? <==> |args| >= 2 && args[0].String? && args[1].String? && db.connected
    ensures |args| >= 2 && args[0].String? && !args[1].String? ==> r == Err(ConditionNotString)
    ensures |args| >= 2 && args[0].String? && args[1].String? && !db.connected ==> r == Err(NotConnected)
    ensures r.Ok? ==> r.value == Statement("DELETE FROM " + args[0].s + " WHERE " + args[1].s, [])
  {
    if |args| < 2 then Err("blaze_db.deletar espera 2 argumentos: (tabela, condicao)")
    else if !args[0].String? then Err(TableNameNotString)
    else if !args[1].String? then Err(ConditionNotString)
    else
      var sql := "DELETE FROM " + args[0].s + " WHERE " + args[1].s;
      if !db.connected then Err(NotConnected) else Ok(Statement(sql, []))
  }

  /** `contar(table, [condition])`. */
  function Contar(args: seq<SValue>, db: Db): (r: Result<Statement, string>)
    ensures r.Ok? <==> |args| >= 1 && args[0].String? && db.connected
    ensures |args| >= 1 && args[0].String? && !db.connected ==> r == Err(NotConnected)
    ensures r.Ok? ==> r.value == Statement("SELECT COUNT(*) FROM " + args[0].s + OptionalWhere(args), [])
  {
    Select("contar", "SELECT COUNT(*) FROM ", args, db)
  }

  // ------------------------------------------------------------------
  // Properties
  // ------------------------------------------------------------------

  /** The filter condition is added exactly when a string condition is given:
      otherwise the query covers the whole table. */
  lemma WhereOnlyForStringCondition(table: string, extra: seq<SValue>, db: Db)
    requires db.connected
    ensures var args := [String(table)] + extra;
      var q := Consultar(args, db).value.sql;
      var c := Contar(args, db).value.sql;
      if |extra| >= 1 && extra[0].String? then
        q == "SELECT * FROM " + table + " WHERE " + extra[0].s
        && c == "SELECT COUNT(*) FROM " + table + " WHERE " + extra[0].s
      else q == "SELECT * FROM " + table && c == "SELECT COUNT(*) FROM " + table
  {
    var args := [String(table)] + extra;
    assert args[0] == String(table);
    if |extra| >= 1 { assert args[1] == extra[0]; }
  }

  /** Before a connection is opened every statement builder refuses with the
      connection error once its arguments are well-formed; after a successful
      `conectar` the same calls build their statements. */
  lemma ConnectionGuard(table: string, data: map<SValue, SValue>, cond: string, path: string, host: DbHost)
    ensures var a2 := [String(table), Dict(data)];
      var a3 := [String(table), Dict(data), String(cond)];
      var closed := Db(false);
      && CriarTabela(a2, closed, host) == Err(NotConnected)
      && Inserir(a2, closed, host) == Err(NotConnected)
      && Consultar([String(table)], closed) == Err(NotConnected)
      && Atualizar(a3, closed, host) == Err(NotConnected)
      && Deletar([String(table), String(cond)], closed) == Err(NotConnected)
      && Contar([String(table)], closed) == Err(NotConnected)
    ensures var a2 := [String(table), Dict(data)];
      var a3 := [String(table), Dict(data), String(cond)];
      var live := Conectar([String(path)], Db(false), true, "").store;
      && CriarTabela(a2, live, host).Ok? && Inserir(a2, live, host).Ok? && Consultar([String(table)], live).Ok?
      && Atualizar(a3, live, host).Ok? && Deletar([String(table), String(cond)], live).Ok?
      && Contar([String(table)], live).Ok?
  {
  }

  /** Parameters keep strings and booleans apart among themselves, but not from each
      other: `true` and the string "1" bind the same text. */
  lemma ParamTextCollisions(host: DbHost, a: SValue, b: SValue)
    ensures a.String? && b.String? ==> (ParamText(host, a) == ParamText(host, b) <==> a == b)
    ensures a.Boolean? && b.Boolean? ==> (ParamText(host, a) == ParamText(host, b) <==> a == b)
    ensures ParamText(host, Boolean(true)) == ParamText(host, String("1"))
    ensures ParamText(host, Boolean(false)) == ParamText(host, String("0"))
  {
  }

  /** A failed `conectar` leaves the connection as it was. */
  lemma FailedConnectKeepsState(args: seq<SValue>, db: Db, reason: string)
    ensures Conectar(args, db, false, reason).store == db
  {
  }

  /** The values bound to an insert are those of the string-keyed entries, each
      converted, and there are as many as placeholders; a dictionary whose keys
      are all strings binds one parameter per key. */
  lemma InsertBindsEveryStringKey(table: string, data: map<SValue, SValue>, host: DbHost, k: string)
    requires String(k) in data && String(k) in host.keyOrder(data)
    ensures var r := Inserir([String(table), Dict(data)], Db(true), host);
      r.Ok? && ParamText(host, data[String(k)]) in r.value.params
  {
    var es := Entries(host, data);
    var j :| 0 <= j < |es| && es[j].0 == String(k);
    var kv := StringKeyed(es);
    assert (k, data[String(k)]) in kv;
    var i :| 0 <= i < |kv| && kv[i] == (k, data[String(k)]);
    var r := Inserir([String(table), Dict(data)], Db(true), host);
    assert r.value.params[i] == ParamText(host, data[String(k)]);
  }

  /** The column definitions are exactly the string-to-string entries: each
      definition comes from one, and each one the iteration visits gives one. */
  lemma OnlyStringColumns(cols: map<SValue, SValue>, host: DbHost, name: SValue, ty: SValue)
    requires name in cols && cols[name] == ty && name in host.keyOrder(cols)
    ensures var defs := ColumnDefs(Entries(host, cols));
      name.String? && ty.String? ==> name.s + " " + ty.s in defs
    ensures var defs := ColumnDefs(Entries(host, cols));
      forall i :: 0 <= i < |defs| ==> exists n, t :: String(n) in cols && cols[String(n)] == String(t) && defs[i] == n + " " + t
  {
    var es := Entries(host, cols);
    var ps := StringPairs(es);
    var defs := ColumnDefs(es);
    if name.String? && ty.String? {
      var j :| 0 <= j < |es| && es[j].0 == name;
      var i :| 0 <= i < |ps| && ps[i] == (name.s, ty.s);
      assert defs[i] == name.s + " " + ty.s;
    }
    forall i | 0 <= i < |defs|
      ensures exists n, t :: String(n) in cols && cols[String(n)] == String(t) && defs[i] == n + " " + t
    {
      assert (String(ps[i].0), String(ps[i].1)) in es;
    }
  }
}
