/** `Models`: the active-record base class.

    A model class is its static configuration: a table, the schema columns
    that property writes may touch, and validation rules. An instance is its
    attribute array. Magic property access goes through the schema allow-list;
    array access does not. `save` and `delete` build their statements with the
    query builder, which `query()` obtains from the `DB` facade. */
module Models {
  import opened Wrappers
  import opened Php
  import opened Arrays
  import QB = QueryBuilder
  import DB
  import V = Validation
  import Collections

  /** `static::class`, `static::$tableName`, `static::$schemaColumns` and
      `static::$rules`. */
  datatype ModelClass = ModelClass(name: string, tableName: string, schemaColumns: seq<string>, rules: Arr<string>)

  /** An instance: `$pdo` and `$attributes`. */
  datatype Model = Model(pdo: QB.Connection, attributes: Arr<Value>)

  /** `new static($pdo)`: the given handle, or else the facade's, which
      throws before `DB::boot`. */
  function New(f: DB.Facade, pdo: Option<QB.Connection>): (r: Result<Model>)
    ensures pdo.Some? ==> r == Ok(Model(pdo.value, Empty()))
    ensures pdo.None? ==> (r.Ok? <==> f.connection.Some?)
    ensures pdo.None? && r.Ok? ==> Some(r.value.pdo) == f.connection
    ensures r.Err? ==> r.thrown == ConnectionNotInitialized
  {
    match pdo
    case Some(c) => Ok(Model(c, Empty()))
    case None =>
      var c :- DB.GetConnection(f);
      Ok(Model(c, Empty()))
  }

  // ------------------------------------------------------------ attributes

  /** `fill($data)`: every pair is written, no allow-list. */
  function Fill(m: Model, data: Arr<Value>): Model {
    m.(attributes := SetAll(m.attributes, data.entries))
  }

  /** After `fill`, a key of the data holds the data's value and every other
      key holds what it held before: last write wins, and no key is refused. */
  lemma FillOverwrites(m: Model, data: Arr<Value>, k: Key)
    requires Valid(data)
    ensures Get(Fill(m, data).attributes, k) == if k in Keys(data) then Get(data, k) else Get(m.attributes, k)
  {
    GetSetAll(m.attributes, data.entries, k);
  }

  /** `__get($key)`: `$this->attributes[$key] ?? null`. */
  function GetAttribute(m: Model, key: string): Value {
    Get(m.attributes, StrIndex(key)).GetOr(Null)
  }

  /** Which property names `__set` accepts. */
  predicate Writable(cls: ModelClass, key: string) {
    key in cls.schemaColumns || key == "id"
  }

  /** `__set($key, $value)`: stored only for a schema column or `id`;
      anything else is logged and dropped. */
  function SetAttribute(cls: ModelClass, m: Model, key: string, value: Value): (r: Model)
    ensures Writable(cls, key) ==> GetAttribute(r, key) == value
    ensures Writable(cls, key) ==> forall k :: k != StrIndex(key) ==> Get(r.attributes, k) == Get(m.attributes, k)
    ensures !Writable(cls, key) ==> r == m
    ensures Valid(m.attributes) ==> Valid(r.attributes)
  {
    if Writable(cls, key) then m.(attributes := Set(m.attributes, StrIndex(key), value)) else m
  }

  /** `offsetExists($offset)`: `isset`, so a stored null does not count. */
  function OffsetExists(m: Model, offset: Value): (r: bool)
    ensures r <==> Get(m.attributes, CastKey(offset)).Some? && Get(m.attributes, CastKey(offset)).value != Null
  {
    match Get(m.attributes, CastKey(offset))
    case None => false
    case Some(v) => v != Null
  }

  /** `offsetGet($offset)`. */
  function OffsetGet(m: Model, offset: Value): Value {
    Get(m.attributes, CastKey(offset)).GetOr(Null)
  }

  /** `offsetSet($offset, $value)`: no allow-list; a null offset is the key "". */
  function OffsetSet(m: Model, offset: Value, value: Value): (r: Model)
    ensures OffsetGet(r, offset) == value
    ensures forall k :: k != CastKey(offset) ==> Get(r.attributes, k) == Get(m.attributes, k)
    ensures Valid(m.attributes) ==> Valid(r.attributes)
  {
    m.(attributes := Set(m.attributes, CastKey(offset), value))
  }

  /** `offsetUnset($offset)`. */
  function OffsetUnset(m: Model, offset: Value): (r: Model)
    ensures Valid(m.attributes) ==> !OffsetExists(r, offset) && OffsetGet(r, offset) == Null
    ensures Valid(m.attributes) ==> forall k :: k != CastKey(offset) ==> Get(r.attributes, k) == Get(m.attributes, k)
  {
    m.(attributes := Unset(m.attributes, CastKey(offset)))
  }

  /** Array access reaches keys that property writes refuse. */
  lemma OffsetSetBypassesSchema(cls: ModelClass, m: Model, key: string, value: Value)
    requires !Writable(cls, key) && value != GetAttribute(m, key)
    ensures SetAttribute(cls, m, key, value) == m
    ensures GetAttribute(OffsetSet(m, Str(key), value), key) == value
    ensures GetAttribute(SetAttribute(cls, m, key, value), key) != value
  {
  }

  // ------------------------------------------------------------ validate

  /** The keys of `array_flip(static::$schemaColumns)`. */
  predicate SchemaKey(schema: seq<string>, k: Key) {
    exists i :: 0 <= i < |schema| && StrIndex(schema[i]) == k
  }

  function KeepSchema(schema: seq<string>): ((Key, Value)) -> bool {
    (e: (Key, Value)) => SchemaKey(schema, e.0)
  }

  /** `array_intersect_key($data, array_flip($schema))`: the data's entries
      whose key is a schema column, in the data's order. */
  function SchemaFilter(data: Arr<Value>, schema: seq<string>): Arr<Value> {
    var es := Collections.FilterSeq(data.entries, KeepSchema(schema));
    Arr(es, Collections.NextOf(es))
  }

  lemma {:induction false} LookupFilter(es: seq<(Key, Value)>, schema: seq<string>, k: Key)
    ensures Lookup(Collections.FilterSeq(es, KeepSchema(schema)), k) == if SchemaKey(schema, k) then Lookup(es, k) else None
    decreases |es|
  {
    if es != [] {
      LookupFilter(es[1..], schema, k);
    }
  }

  /** The filtered data holds exactly the schema columns present in the
      input, each with its input value. */
  lemma SchemaFilterGet(data: Arr<Value>, schema: seq<string>, k: Key)
    ensures Get(SchemaFilter(data, schema), k) == if SchemaKey(schema, k) then Get(data, k) else None
  {
    LookupFilter(data.entries, schema, k);
  }

  /** `['success' => true, 'data' => ...]` or `['success' => false, 'errors' => ...]`. */
  datatype Validation = Success(data: Arr<Value>) | Failure(errors: Arr<seq<string>>)

  /** `validate($data)`: a fresh validator runs the class rules on the input
      cut down to the schema columns. */
  function Validate(cls: ModelClass, data: Arr<Value>, lib: V.Library): (r: Validation)
    ensures r.Success? <==> V.AllFieldsPass(SchemaFilter(data, cls.schemaColumns), cls.rules.entries, lib)
    ensures r.Success? ==> r.data == SchemaFilter(data, cls.schemaColumns)
    ensures r.Failure? ==> Count(r.errors) > 0
  {
    var filtered := SchemaFilter(data, cls.schemaColumns);
    V.ValidateExact(V.NewValidator(), filtered, cls.rules, lib);
    var (v, ok) := V.Validate(V.NewValidator(), filtered, cls.rules, lib);
    if !ok then Failure(v.errors) else Success(filtered)
  }

  // ------------------------------------------------------------ queries

  /** The builder `query()` hands out: the class's table and class name on
      otherwise default state. */
  function ModelState(cls: ModelClass, c: QB.Connection): QB.State {
    QB.Initial(c).(table := cls.tableName, modelClass := Some(cls.name))
  }

  /** `query()`: `DB::table(static::$tableName)->setModel(static::class)`. */
  function Query(cls: ModelClass, f: DB.Facade): (r: Result<QB.State>)
    ensures f.connection.None? ==> r == Err(ConnectionNotInitialized)
    ensures f.connection.Some? ==> r == Ok(ModelState(cls, f.connection.value))
  {
    QueryChain(cls, f);
    DB.Run(f, DB.TableCall(cls.tableName), [DB.SetModelCall(cls.name)])
  }

  lemma QueryChain(cls: ModelClass, f: DB.Facade)
    ensures f.connection.Some? ==>
      DB.Chain(QB.Initial(f.connection.value), [DB.TableCall(cls.tableName)] + [DB.SetModelCall(cls.name)])
        == Ok(ModelState(cls, f.connection.value))
  {
    if f.connection.Some? {
      QueryChainOn(cls, f.connection.value);
    }
  }

  lemma QueryChainOn(cls: ModelClass, c: QB.Connection)
    ensures DB.Chain(QB.Initial(c), [DB.TableCall(cls.tableName)] + [DB.SetModelCall(cls.name)]) == Ok(ModelState(cls, c))
  {
    var s0 := QB.Initial(c);
    var s1 := QB.Table(s0, cls.tableName);
    var calls := [DB.TableCall(cls.tableName)] + [DB.SetModelCall(cls.name)];
    assert DB.Apply(s0, calls[0]) == Ok(s1);
    assert calls[1..] == [DB.SetModelCall(cls.name)];
    assert DB.Apply(s1, calls[1]) == Ok(ModelState(cls, c));
    var s2 := QB.SetModel(s1, cls.name);
    assert s2 == ModelState(cls, c);
    assert calls[1..][1..] == [];
    assert DB.Chain(s2, calls[1..][1..]) == Ok(s2);
    assert DB.Chain(s1, calls[1..]) == DB.Chain(s2, calls[1..][1..]);
    assert DB.Chain(s0, calls) == DB.Chain(s1, calls[1..]);
  }

  /** `Model::method(...)`: forwarded to a new `query()`; a method the
      builder lacks throws. */
  function CallStatic(cls: ModelClass, f: DB.Facade, c: DB.Call): (r: Result<QB.State>)
    ensures f.connection.None? ==> r == Err(ConnectionNotInitialized)
    ensures f.connection.Some? ==> r == DB.Apply(ModelState(cls, f.connection.value), c)
    ensures f.connection.Some? && c.Undefined? ==> r == Err(UndefinedMethod(c.name))
  {
    var q :- Query(cls, f);
    DB.Apply(q, c)
  }

  /** `isset($this->attributes['id'])`. */
  predicate HasId(m: Model) {
    Get(m.attributes, StrKey("id")).Some? && Get(m.attributes, StrKey("id")).value != Null
  }

  /** `->where('id', '=', $id)` on the model's builder. */
  function KeyedOn(cls: ModelClass, c: QB.Connection, id: Value): QB.State {
    QB.Condition(ModelState(cls, c), "id", "=", "=", QB.Scalar(id), QB.And, false)
  }

  /** The where-string and bindings of a builder keyed on `id`: one
      condition, bound under `:p0`. */
  lemma KeyedOnId(cls: ModelClass, c: QB.Connection, id: Value)
    ensures KeyedOn(cls, c, id).where == " WHERE " + " (id = ( " + QB.ScalarName(0) + " ) ) "
    ensures KeyedOn(cls, c, id).bindings.entries == [(StrKey(QB.ScalarName(0)), id)]
    ensures QB.BindingsInv(KeyedOn(cls, c, id).bindings)
  {
    QB.BindScalarAppends(Empty(), id);
    assert !QB.IsNullTest("=");
  }

  /** `(bool)` of an `int|false` result. */
  predicate Succeeded(w: QB.WriteResult) {
    w.Written? && w.n != 0
  }

  datatype SaveOutput = SaveOutput(model: Model, stmt: Option<QB.Statement>, saved: bool)

  /** `save()`: with an id, an UPDATE of every attribute keyed on that id;
      without one, an INSERT whose returned id is written back. */
  function Save(cls: ModelClass, m: Model, f: DB.Facade, updated: QB.WriteOutcome, inserted: QB.InsertOutcome): (r: Result<SaveOutput>)
    ensures r.Err? <==> f.connection.None?
    ensures r.Err? ==> r.thrown == ConnectionNotInitialized
    ensures r.Ok? && HasId(m) ==>
      && r.value.model == m
      && r.value.stmt == QB.Update(KeyedOn(cls, f.connection.value, Get(m.attributes, StrKey("id")).value), m.attributes, updated).stmt
      && (r.value.saved <==> !IsEmpty(Str(cls.tableName)) && updated.Executed? && updated.rowCount != 0)
    ensures r.Ok? && !HasId(m) ==>
      && r.value.stmt == QB.Insert(ModelState(cls, f.connection.value), m.attributes, inserted).stmt
      && (r.value.saved <==>
            Count(m.attributes) > 0 && inserted.InsertExecuted? && inserted.success && IntCast(inserted.lastInsertId) != 0)
    ensures r.Ok? && !HasId(m) && r.value.saved ==>
      r.value.model == m.(attributes := Set(m.attributes, StrKey("id"), Int(IntCast(inserted.lastInsertId))))
    ensures r.Ok? && !r.value.saved ==> r.value.model == m
  {
    var q :- Query(cls, f);
    if HasId(m) then
      var id := Get(m.attributes, StrKey("id")).value;
      WhereIdAccepted(cls, f.connection.value, id);
      var u := QB.Update(KeyedOn(cls, f.connection.value, id), m.attributes, updated);
      Ok(SaveOutput(m, u.stmt, Succeeded(u.result)))
    else
      var i := QB.Insert(q, m.attributes, inserted);
      if Succeeded(i.result) then
        Ok(SaveOutput(m.(attributes := Set(m.attributes, StrKey("id"), Int(i.result.n))), i.stmt, true))
      else
        Ok(SaveOutput(m, i.stmt, false))
  }

  /** The update `save` sends binds every attribute under its `:u_` name and
      then the id under `:p0`, which is the only name in its where-string. */
  lemma SaveUpdatesById(cls: ModelClass, m: Model, f: DB.Facade, updated: QB.WriteOutcome, inserted: QB.InsertOutcome)
    requires f.connection.Some? && HasId(m) && Valid(m.attributes) && !IsEmpty(Str(cls.tableName))
    ensures var ps := Save(cls, m, f, updated, inserted).value.stmt.value.params;
      var n := Count(m.attributes);
      && |ps| == n + 1
      && (forall i :: 0 <= i < n ==>
            ps[i].name == StrKey(QB.UpdateName(KeyString(m.attributes.entries[i].0))) && ps[i].value == m.attributes.entries[i].1)
      && ps[n].name == StrKey(QB.ScalarName(0)) && ps[n].value == Get(m.attributes, StrKey("id")).value
  {
    var id := Get(m.attributes, StrKey("id")).value;
    assert StrKey("id") in Keys(m.attributes);
    KeyedOnId(cls, f.connection.value, id);
    QB.UpdateBindingsOrder(m.attributes, KeyedOn(cls, f.connection.value, id).bindings);
  }

  datatype DeleteOutput = DeleteOutput(stmt: Option<QB.Statement>, deleted: bool)

  /** `where('id', '=', $id)` on the model's builder never throws and gives
      `KeyedOn`, whose where-string is not empty. */
  lemma WhereIdAccepted(cls: ModelClass, c: QB.Connection, id: Value)
    ensures QB.Where(ModelState(cls, c), "id", "=", QB.Scalar(id)) == Ok(KeyedOn(cls, c, id))
    ensures !IsEmpty(Str(KeyedOn(cls, c, id).where))
  {
    QB.FixedOperatorsAccepted();
    QB.AcceptedCondition(ModelState(cls, c), "id", "=", "=", QB.Scalar(id), QB.And, false);
    KeyedOnNotEmpty(cls, c, id);
  }

  lemma KeyedOnNotEmpty(cls: ModelClass, c: QB.Connection, id: Value)
    ensures !IsEmpty(Str(KeyedOn(cls, c, id).where))
  {
    KeyedOnId(cls, c, id);
    var w := KeyedOn(cls, c, id).where;
    assert w[0] == ' ' && w[1] == 'W';
  }

  /** `delete()`: without an id, false and no query at all; otherwise the
      builder's DELETE keyed on the id, which throws for an empty table name. */
  function Delete(cls: ModelClass, m: Model, f: DB.Facade, outcome: QB.WriteOutcome): (r: Result<DeleteOutput>)
    ensures !HasId(m) ==> r == Ok(DeleteOutput(None, false))
    ensures HasId(m) && f.connection.None? ==> r == Err(ConnectionNotInitialized)
    ensures HasId(m) && f.connection.Some? ==>
      && (r.Err? <==> IsEmpty(Str(cls.tableName)))
      && (r.Err? ==> r.thrown == DeleteWithoutTable)
      && (r.Ok? ==> (r.value.deleted <==> outcome.Executed? && outcome.rowCount != 0))
      && (r.Ok? ==>
            r.value.stmt == Some(QB.Delete(KeyedOn(cls, f.connection.value, Get(m.attributes, StrKey("id")).value), outcome).value.stmt))
  {
    if !HasId(m) then Ok(DeleteOutput(None, false))
    else
      var q :- Query(cls, f);
      var id := Get(m.attributes, StrKey("id")).value;
      WhereIdAccepted(cls, f.connection.value, id);
      KeyedOnTable(cls, f.connection.value, id);
      DeleteWhere(QB.Where(q, "id", "=", QB.Scalar(id)).value, outcome)
  }

  lemma KeyedOnTable(cls: ModelClass, c: QB.Connection, id: Value)
    ensures KeyedOn(cls, c, id).table == cls.tableName
  {
  }

  /** `->delete()` on a builder that already has a where-string, cast to bool. */
  function DeleteWhere(s: QB.State, outcome: QB.WriteOutcome): (r: Result<DeleteOutput>)
    requires !IsEmpty(Str(s.where))
    ensures r.Err? <==> IsEmpty(Str(s.table))
    ensures r.Err? ==> r.thrown == DeleteWithoutTable
    ensures r.Ok? ==> r.value.stmt == Some(QB.Delete(s, outcome).value.stmt)
    ensures r.Ok? ==> (r.value.deleted <==> outcome.Executed? && outcome.rowCount != 0)
  {
    var d :- QB.Delete(s, outcome);
    Ok(DeleteOutput(Some(d.stmt), Succeeded(d.result)))
  }

  /** The statement `delete()` sends removes the row whose id is bound to
      `:p0`, and nothing else is bound. */
  lemma DeleteById(cls: ModelClass, m: Model, f: DB.Facade, outcome: QB.WriteOutcome)
    requires HasId(m) && f.connection.Some? && !IsEmpty(Str(cls.tableName))
    ensures var stmt := Delete(cls, m, f, outcome).value.stmt.value;
      && stmt.sql == "DELETE FROM " + cls.tableName + " " + KeyedOn(cls, f.connection.value, Get(m.attributes, StrKey("id")).value).where
      && |stmt.params| == 1
      && stmt.params[0].name == StrKey(QB.ScalarName(0))
      && stmt.params[0].value == Get(m.attributes, StrKey("id")).value
  {
    var c := f.connection.value;
    var id := Get(m.attributes, StrKey("id")).value;
    var k := KeyedOn(cls, c, id);
    KeyedOnId(cls, c, id);
    KeyedOnNotEmpty(cls, c, id);
    KeyedOnTable(cls, c, id);
    var stmt := QB.Delete(k, outcome).value.stmt;
    assert Delete(cls, m, f, outcome).value.stmt.value == stmt;
    assert stmt.sql == "DELETE FROM " + cls.tableName + " " + k.where;
    assert stmt.params == QB.BindParams(k.bindings);
  }
}
