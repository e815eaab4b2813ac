/** `QueryBuilder`: the fluent SQL builder.

    The builder's mutable properties become the `State` record and every
    chainable call a function from state to state (or to `Err` when the PHP code
    throws through `Log::exception`). `toSql` and the statements built by
    `get`, `insert`, `update` and `delete` are pure compilers; what PDO does with
    a statement is an oracle argument (`ReadOutcome`, `InsertOutcome`,
    `WriteOutcome`), and what it is handed is the `Statement` value. */
module QueryBuilder {
  import opened Wrappers
  import opened Php
  import opened Arrays
  import opened Collections

  /** The PDO handle the builder was constructed with; never looked into. */
  datatype Connection = Connection(id: nat)

  datatype State = State(
    pdo: Connection,
    debug: bool,
    table: string,
    select: string,
    joins: string,
    where: string,
    orderBy: seq<string>,
    groupBy: seq<string>,
    limit: Option<int>,
    offset: Option<int>,
    bindings: Arr<Value>,
    modelClass: Option<string>)

  /** `new QueryBuilder($pdo)`: the property defaults. */
  function Initial(pdo: Connection): (s: State)
    ensures BindingsInv(s.bindings) && Count(s.bindings) == 0
    ensures s.where == "" && s.select == "*" && s.modelClass.None?
  {
    State(pdo, false, "", "*", "", "", [], [], None, None, Empty(), None)
  }

  /** `resetState()`: every query part back to its default, except the
      connection and the model class, which survive. */
  function ResetState(s: State): (r: State)
    ensures r == Initial(s.pdo).(modelClass := s.modelClass)
  {
    s.(table := "", select := "*", joins := "", where := "", orderBy := [], groupBy := [],
       limit := None, offset := None, bindings := Empty(), debug := false)
  }

  // ------------------------------------------------------------ operators

  const AuthorizedOperators: seq<string> :=
    ["=", "!=", "<>", "<", "<=", ">", ">=", "LIKE", "NOT LIKE", "IN", "NOT IN", "IS NULL", "IS NOT NULL", "BETWEEN"]

  function NormalizeOperator(op: string): string {
    Upper(Trim(op))
  }

  /** `validateOperator`: throws unless the trimmed, upper-cased operator is allow-listed. */
  function ValidateOperator(op: string): (r: Result<string>)
    ensures r.Ok? <==> NormalizeOperator(op) in AuthorizedOperators
    ensures r.Ok? ==> r.value == NormalizeOperator(op)
    ensures r.Err? ==> r.thrown == InvalidOperator(op)
  {
    var normalized := NormalizeOperator(op);
    if normalized in AuthorizedOperators then Ok(normalized) else Err(InvalidOperator(op))
  }

  lemma {:induction false} TrimLeftPadded(pad: string, core: string)
    requires forall i :: 0 <= i < |pad| ==> pad[i] in Whitespace
    requires |core| > 0 && core[0] !in Whitespace
    ensures TrimLeft(pad + core, Whitespace) == core
    decreases |pad|
  {
    if pad != [] {
      assert (pad + core)[1..] == pad[1..] + core;
      TrimLeftPadded(pad[1..], core);
    } else {
      assert pad + core == core;
    }
  }

  lemma {:induction false} TrimRightPadded(core: string, pad: string)
    requires forall i :: 0 <= i < |pad| ==> pad[i] in Whitespace
    requires |core| > 0 && core[|core| - 1] !in Whitespace
    ensures TrimRight(core + pad, Whitespace) == core
    decreases |pad|
  {
    if pad != [] {
      assert (core + pad)[..|core + pad| - 1] == core + pad[..|pad| - 1];
      TrimRightPadded(core, pad[..|pad| - 1]);
    } else {
      assert core + pad == core;
    }
  }

  /** Every allow-listed operator is upper case and unpadded. */
  lemma AuthorizedShape(op: string)
    requires op in AuthorizedOperators
    ensures |op| > 0 && op[0] !in Whitespace && op[|op| - 1] !in Whitespace
    ensures forall i :: 0 <= i < |op| ==> !('a' <= op[i] <= 'z')
  {
  }

  /** The allow-list check ignores letter case and surrounding whitespace: every
      authorised operator is accepted written in lower case and padded. */
  lemma OperatorCaseAndSpaceInsensitive(op: string, before: string, after: string)
    requires op in AuthorizedOperators
    requires forall i :: 0 <= i < |before| ==> before[i] in Whitespace
    requires forall i :: 0 <= i < |after| ==> after[i] in Whitespace
    ensures ValidateOperator(before + Lower(op) + after) == Ok(op)
  {
    AuthorizedShape(op);
    var low := Lower(op);
    assert low[0] !in Whitespace && low[|low| - 1] !in Whitespace;
    TrimLeftPadded(before, low + after);
    assert before + low + after == before + (low + after);
    TrimRightPadded(low, after);
    assert Trim(before + low + after) == low;
    UpperLower(op);
  }

  // ------------------------------------------------------------ placeholders

  /** The name a scalar condition binds: `":p" . count($this->bindings)`. */
  function ScalarName(n: nat): string {
    ":p" + NatToString(n)
  }

  /** The name of the `i`-th element of a list condition: `":p_" . ($base + $i)`. */
  function ListName(n: nat): string {
    ":p_" + NatToString(n)
  }

  /** Reads back the number in a placeholder name written by the builder. */
  function PlaceholderIndex(name: string): Option<nat> {
    if |name| >= 4 && name[..3] == ":p_" && AllDigits(name[3..]) then Some(ParseNat(name[3..]))
    else if |name| >= 3 && name[..2] == ":p" && AllDigits(name[2..]) then Some(ParseNat(name[2..]))
    else None
  }

  lemma ScalarNameIndex(n: nat)
    ensures PlaceholderIndex(ScalarName(n)) == Some(n)
  {
    var name := ScalarName(n);
    assert name[2..] == NatToString(n);
    assert name[2] != '_';
    ParseNatToString(n);
  }

  lemma ListNameIndex(n: nat)
    ensures PlaceholderIndex(ListName(n)) == Some(n)
  {
    var name := ListName(n);
    assert name[..3] == ":p_";
    assert name[3..] == NatToString(n);
    ParseNatToString(n);
  }

  /** A name that starts with ':' is never a canonical integer, so PHP keeps it
      as a string key. */
  lemma NameKey(name: string)
    requires |name| > 0 && name[0] == ':'
    ensures StrIndex(name) == StrKey(name)
  {
  }

  /** What the builder's bindings always satisfy: a valid array whose integer
      keys (from `whereBetween`) are 0, 1, 2, ... in order, and whose string keys
      are placeholder names numbered below the current binding count. This is
      what makes every newly allocated name fresh. */
  predicate BindingsInv(b: Arr<Value>) {
    && Valid(b)
    && Dense(b)
    && NamesBelowCount(b)
  }

  /** Every string key is a placeholder numbered below the binding count. */
  predicate NamesBelowCount(b: Arr<Value>) {
    forall i :: 0 <= i < |b.entries| && b.entries[i].0.StrKey? ==>
      PlaceholderIndex(b.entries[i].0.s).Some? && PlaceholderIndex(b.entries[i].0.s).value < Count(b)
  }

  /** A placeholder numbered at or above the binding count is not yet a key. */
  lemma FreshName(b: Arr<Value>, name: string)
    requires BindingsInv(b)
    requires PlaceholderIndex(name).Some? && PlaceholderIndex(name).value >= Count(b)
    ensures StrKey(name) !in Keys(b)
  {
    assert forall i :: 0 <= i < |b.entries| ==> b.entries[i].0 != StrKey(name);
  }

  // ------------------------------------------------------------ conditions

  datatype Connective = And | Or

  function Word(c: Connective): string {
    match c
    case And => "AND"
    case Or => "OR"
  }

  /** The right-hand side of a condition: a single value or a PHP list. */
  datatype Operand = Scalar(v: Value) | List(vs: seq<Value>)

  predicate IsNullTest(normalized: string) {
    normalized == "IS NULL" || normalized == "IS NOT NULL"
  }

  /** The placeholder names a condition allocates, given the binding count `n`. */
  function Placeholders(normalized: string, value: Operand, n: nat): (names: seq<string>)
    ensures IsNullTest(normalized) ==> names == []
    ensures !IsNullTest(normalized) && value.Scalar? ==> names == [ScalarName(n)]
    ensures !IsNullTest(normalized) && value.List? ==>
      |names| == |value.vs| && forall i :: 0 <= i < |names| ==> names[i] == ListName(n + i)
  {
    if IsNullTest(normalized) then []
    else match value
      case Scalar(_) => [ScalarName(n)]
      case List(vs) => seq(|vs|, i requires 0 <= i < |vs| => ListName(n + i))
  }

  /** The values bound to those names, in the same order. */
  function PlaceholderValues(normalized: string, value: Operand): seq<Value> {
    if IsNullTest(normalized) then []
    else match value
      case Scalar(v) => [v]
      case List(vs) => vs
  }

  /** The parenthesised condition `addCondition` emits. The scalar branch writes
      the operator as the caller spelled it, the other two the normalised one. */
  function ConditionBody(col: string, op: string, normalized: string, value: Operand, n: nat): string {
    if IsNullTest(normalized) then " (" + col + " " + normalized + ") "
    else match value
      case List(_) => " (" + col + " " + normalized + " ( " + Implode(", ", Placeholders(normalized, value, n)) + " )) "
      case Scalar(_) => " (" + col + " " + op + " ( " + ScalarName(n) + " ) ) "
  }

  /** The connective in front of a new condition: " WHERE " for the first one. */
  function ConditionStart(where: string, conn: Connective): string {
    if where == "" then " WHERE " else " " + Word(conn) + " "
  }

  function Negation(negate: bool): string {
    if negate then "NOT " else ""
  }

  /** `$newBindings[$placeholder] = $val` for each list element. */
  function ListBindings(vs: seq<Value>, n: nat): Arr<Value> {
    Arr(seq(|vs|, i requires 0 <= i < |vs| => (StrIndex(ListName(n + i)), vs[i])), 0)
  }

  function Bind(b: Arr<Value>, normalized: string, value: Operand): Arr<Value> {
    if IsNullTest(normalized) then b
    else match value
      case Scalar(v) => Set(b, StrIndex(ScalarName(Count(b))), v)
      case List(vs) => Merge(b, ListBindings(vs, Count(b)))
  }

  /** The where-string after one more condition. */
  function Conjoin(where: string, conn: Connective, negate: bool, clause: string): string {
    where + ConditionStart(where, conn) + Negation(negate) + clause
  }

  /** What `addCondition` does once the operator has passed validation. */
  function Condition(s: State, col: string, op: string, normalized: string, value: Operand, conn: Connective, negate: bool): (r: State)
    ensures r.(where := s.where, bindings := s.bindings) == s
  {
    s.(where := Conjoin(s.where, conn, negate, ConditionBody(col, op, normalized, value, Count(s.bindings))),
       bindings := Bind(s.bindings, normalized, value))
  }

  /** `addCondition`: throws on an operator outside the allow-list; otherwise
      extends the where-string and the bindings. */
  function AddCondition(s: State, col: string, op: string, value: Operand, conn: Connective, negate: bool): (r: Result<State>)
    ensures r.Ok? <==> NormalizeOperator(op) in AuthorizedOperators
    ensures r.Err? ==> r.thrown == InvalidOperator(op)
    ensures r.Ok? ==> r.value == Condition(s, col, op, NormalizeOperator(op), value, conn, negate)
  {
    var normalized :- ValidateOperator(op);
    Ok(Condition(s, col, op, normalized, value, conn, negate))
  }

  /** The entries a condition appends: each allocated name with its value. */
  function NewEntries(names: seq<string>, vals: seq<Value>): (es: seq<(Key, Value)>)
    requires |names| == |vals|
    ensures |es| == |names| && forall i :: 0 <= i < |es| ==> es[i] == (StrKey(names[i]), vals[i])
  {
    seq(|names|, i requires 0 <= i < |names| => (StrKey(names[i]), vals[i]))
  }

  /** `es` are string entries named by the next placeholder numbers after `b`'s count. */
  predicate FreshRun(b: Arr<Value>, es: seq<(Key, Value)>) {
    forall i :: 0 <= i < |es| ==> es[i].0.StrKey? && PlaceholderIndex(es[i].0.s) == Some(Count(b) + i)
  }

  lemma PlaceholderKeyValid(name: string)
    requires PlaceholderIndex(name).Some?
    ensures ValidKey(StrKey(name))
  {
    assert name[0] == ':';
  }

  lemma AppendFreshDistinct(b: Arr<Value>, es: seq<(Key, Value)>)
    requires Distinct(Keys(b)) && NamesBelowCount(b) && FreshRun(b, es)
    ensures Distinct(KeysOf(b.entries + es))
  {
    var q := b.entries + es;
    forall i, j | 0 <= i < j < |q|
      ensures KeysOf(q)[i] != KeysOf(q)[j]
    {
      AppendFreshPair(b, es, i, j);
    }
  }

  lemma AppendFreshPair(b: Arr<Value>, es: seq<(Key, Value)>, i: nat, j: nat)
    requires Distinct(Keys(b)) && NamesBelowCount(b) && FreshRun(b, es)
    requires i < j < |b.entries| + |es|
    ensures (b.entries + es)[i].0 != (b.entries + es)[j].0
  {
    var q := b.entries + es;
    var m := |b.entries|;
    if i >= m {
      assert q[i] == es[i - m] && q[j] == es[j - m];
      IndexedKeysDiffer(q[i].0, q[j].0, Count(b) + i - m, Count(b) + j - m);
    } else if j >= m {
      assert q[j] == es[j - m] && q[i] == b.entries[i];
      if q[i].0.StrKey? {
        IndexedKeysDiffer(q[i].0, q[j].0, PlaceholderIndex(q[i].0.s).value, Count(b) + j - m);
      }
    } else {
      assert KeysOf(b.entries)[i] == q[i].0 && KeysOf(b.entries)[j] == q[j].0;
    }
  }

  lemma IndexedKeysDiffer(k1: Key, k2: Key, n1: nat, n2: nat)
    requires k1.StrKey? && PlaceholderIndex(k1.s) == Some(n1)
    requires k2.StrKey? && PlaceholderIndex(k2.s) == Some(n2)
    requires n1 != n2
    ensures k1 != k2
  {
  }

  lemma AppendFreshValid(b: Arr<Value>, es: seq<(Key, Value)>)
    requires BindingsInv(b) && FreshRun(b, es)
    ensures Valid(Arr(b.entries + es, b.next))
  {
    var q := b.entries + es;
    var m := |b.entries|;
    AppendFreshDistinct(b, es);
    forall i | 0 <= i < |q|
      ensures ValidKey(q[i].0)
      ensures q[i].0.IntKey? ==> q[i].0.i < b.next
    {
      if i >= m {
        assert q[i] == es[i - m];
        PlaceholderKeyValid(es[i - m].0.s);
      } else {
        assert q[i] == b.entries[i];
      }
    }
  }

  lemma AppendFreshDense(b: Arr<Value>, es: seq<(Key, Value)>)
    requires BindingsInv(b) && FreshRun(b, es)
    ensures Dense(Arr(b.entries + es, b.next))
  {
    var q := b.entries + es;
    var m := |b.entries|;
    AppendFreshDistinct(b, es);
    forall i | 0 <= i < |q| && q[i].0.IntKey?
      ensures q[i].0.i == IntCount(q[..i])
    {
      assert i < m;
      assert q[i] == b.entries[i] && q[..i] == b.entries[..i];
    }
    assert AllStrKeys(es);
    IntCountStrings(b.entries, es);
  }

  lemma AppendFreshNumbered(b: Arr<Value>, es: seq<(Key, Value)>)
    requires BindingsInv(b) && FreshRun(b, es)
    ensures var q := b.entries + es;
      forall i :: 0 <= i < |q| && q[i].0.StrKey? ==>
        PlaceholderIndex(q[i].0.s).Some? && PlaceholderIndex(q[i].0.s).value < |q|
  {
    var q := b.entries + es;
    var m := |b.entries|;
    forall i | 0 <= i < |q| && q[i].0.StrKey?
      ensures PlaceholderIndex(q[i].0.s).Some? && PlaceholderIndex(q[i].0.s).value < |q|
    {
      if i >= m {
        assert q[i] == es[i - m];
      } else {
        assert q[i] == b.entries[i];
      }
    }
  }

  /** Appending a fresh run keeps the bindings invariant. */
  lemma AppendFreshInv(b: Arr<Value>, es: seq<(Key, Value)>)
    requires BindingsInv(b) && FreshRun(b, es)
    ensures BindingsInv(Arr(b.entries + es, b.next))
  {
    AppendFreshValid(b, es);
    AppendFreshDense(b, es);
    AppendFreshNumbered(b, es);
  }

  lemma ScalarBindFresh(b: Arr<Value>, v: Value)
    requires BindingsInv(b)
    ensures var r := Set(b, StrIndex(ScalarName(Count(b))), v);
      r.entries == b.entries + [(StrKey(ScalarName(Count(b))), v)] && r.next == b.next && BindingsInv(r)
  {
    var name := ScalarName(Count(b));
    NameKey(name);
    ScalarNameIndex(Count(b));
    FreshName(b, name);
    PlaceholderKeyValid(name);
    SetFreshName(b, name, v);
  }

  lemma SetFreshName(b: Arr<Value>, name: string, v: Value)
    requires BindingsInv(b)
    requires PlaceholderIndex(name) == Some(Count(b)) && StrKey(name) !in Keys(b) && ValidKey(StrKey(name))
    ensures var r := Set(b, StrKey(name), v);
      r.entries == b.entries + [(StrKey(name), v)] && r.next == b.next && BindingsInv(r)
  {
    var e := [(StrKey(name), v)];
    assert FreshRun(b, e);
    AppendFreshInv(b, e);
  }

  lemma ListBindingsRun(b: Arr<Value>, vs: seq<Value>)
    ensures var n := Count(b);
      && ListBindings(vs, n).entries == NewEntries(Placeholders("IN", List(vs), n), vs)
      && FreshRun(b, ListBindings(vs, n).entries)
      && AllStrKeys(ListBindings(vs, n).entries)
  {
    var n := Count(b);
    var names := Placeholders("IN", List(vs), n);
    ListPlaceholderNames(vs, n);
    var nb := ListBindings(vs, n);
    forall i | 0 <= i < |vs|
      ensures nb.entries[i] == (StrKey(names[i]), vs[i])
      ensures PlaceholderIndex(names[i]) == Some(n + i)
    {
      ListBindingEntry(vs, n, i);
    }
    assert nb.entries == NewEntries(names, vs);
  }

  lemma ListPlaceholderNames(vs: seq<Value>, n: nat)
    ensures var names := Placeholders("IN", List(vs), n);
      |names| == |vs| && forall i :: 0 <= i < |names| ==> names[i] == ListName(n + i)
  {
    assert !IsNullTest("IN");
  }

  lemma ListBindingEntry(vs: seq<Value>, n: nat, i: nat)
    requires i < |vs|
    ensures ListBindings(vs, n).entries[i] == (StrKey(ListName(n + i)), vs[i])
    ensures PlaceholderIndex(ListName(n + i)) == Some(n + i)
  {
    NameKey(ListName(n + i));
    ListNameIndex(n + i);
  }

  lemma ListBindFresh(b: Arr<Value>, vs: seq<Value>)
    requires BindingsInv(b)
    ensures var n := Count(b);
      var r := Merge(b, ListBindings(vs, n));
      r == Arr(b.entries + NewEntries(Placeholders("IN", List(vs), n), vs), b.next) && BindingsInv(r)
  {
    var nb := ListBindings(vs, Count(b));
    ListBindingsRun(b, vs);
    AppendFreshDistinct(b, nb.entries);
    MergeFreshStrings(b, nb);
    AppendFreshInv(b, nb.entries);
  }

  /** The three branches of `addCondition`'s binding step, as one statement. */
  predicate AppendsFresh(b: Arr<Value>, r: Arr<Value>, names: seq<string>, vals: seq<Value>) {
    && |names| == |vals|
    && r.entries == b.entries + NewEntries(names, vals)
    && (forall i :: 0 <= i < |names| ==> StrKey(names[i]) !in Keys(b))
    && BindingsInv(r)
  }

  lemma BindScalarAppends(b: Arr<Value>, v: Value)
    requires BindingsInv(b)
    ensures AppendsFresh(b, Set(b, StrIndex(ScalarName(Count(b))), v), [ScalarName(Count(b))], [v])
  {
    ScalarBindFresh(b, v);
    ScalarNameIndex(Count(b));
    FreshName(b, ScalarName(Count(b)));
    assert NewEntries([ScalarName(Count(b))], [v]) == [(StrKey(ScalarName(Count(b))), v)];
  }

  lemma FreshRunNew(b: Arr<Value>, es: seq<(Key, Value)>)
    requires BindingsInv(b) && FreshRun(b, es)
    ensures forall i :: 0 <= i < |es| ==> es[i].0 !in Keys(b)
  {
    forall i | 0 <= i < |es|
      ensures es[i].0 !in Keys(b)
    {
      FreshName(b, es[i].0.s);
    }
  }

  lemma BindListAppends(b: Arr<Value>, vs: seq<Value>)
    requires BindingsInv(b)
    ensures AppendsFresh(b, Merge(b, ListBindings(vs, Count(b))), Placeholders("IN", List(vs), Count(b)), vs)
  {
    var nb := ListBindings(vs, Count(b));
    ListBindFresh(b, vs);
    ListBindingsRun(b, vs);
    FreshRunNew(b, nb.entries);
  }

  lemma BindAppends(b: Arr<Value>, normalized: string, value: Operand)
    requires BindingsInv(b)
    ensures AppendsFresh(b, Bind(b, normalized, value),
      Placeholders(normalized, value, Count(b)), PlaceholderValues(normalized, value))
  {
    if IsNullTest(normalized) {
      assert b.entries + NewEntries([], []) == b.entries;
    } else if value.Scalar? {
      BindScalarAppends(b, value.v);
    } else {
      BindListAppends(b, value.vs);
      assert Placeholders("IN", value, Count(b)) == Placeholders(normalized, value, Count(b));
    }
  }

  /** Placeholder allocation: a successful condition appends exactly one entry
      per placeholder it writes (none for IS NULL / IS NOT NULL, one `:p{n}` for
      a scalar, `:p_{n+i}` for the i-th list element, n being the prior binding
      count), each under a name that was not a key before; the count grows by
      exactly the number of placeholders and the invariant is kept. */
  lemma AddConditionBindings(s: State, col: string, op: string, value: Operand, conn: Connective, negate: bool)
    requires BindingsInv(s.bindings)
    requires NormalizeOperator(op) in AuthorizedOperators
    ensures var r := AddCondition(s, col, op, value, conn, negate).value;
      var normalized := NormalizeOperator(op);
      var names := Placeholders(normalized, value, Count(s.bindings));
      && |names| == |PlaceholderValues(normalized, value)|
      && r.bindings.entries == s.bindings.entries + NewEntries(names, PlaceholderValues(normalized, value))
      && Count(r.bindings) == Count(s.bindings) + |names|
      && (forall i :: 0 <= i < |names| ==> StrKey(names[i]) !in Keys(s.bindings))
      && BindingsInv(r.bindings)
  {
    BindAppends(s.bindings, NormalizeOperator(op), value);
    assert AddCondition(s, col, op, value, conn, negate).value.bindings == Bind(s.bindings, NormalizeOperator(op), value);
  }

  /** An accepted condition keeps the bindings invariant. */
  lemma AddConditionKeepsInv(s: State, col: string, op: string, value: Operand, conn: Connective, negate: bool)
    requires BindingsInv(s.bindings)
    requires NormalizeOperator(op) in AuthorizedOperators
    ensures AddCondition(s, col, op, value, conn, negate).Ok?
    ensures BindingsInv(AddCondition(s, col, op, value, conn, negate).value.bindings)
  {
    AddConditionBindings(s, col, op, value, conn, negate);
  }

  /** The where-string of a condition, with the connective spelled out. */
  lemma ConditionText(s: State, col: string, op: string, normalized: string, value: Operand, conn: Connective)
    ensures Condition(s, col, op, normalized, value, conn, false).where
         == s.where + (if s.where == "" then " WHERE " else if conn == And then " AND " else " OR ")
            + ConditionBody(col, op, normalized, value, Count(s.bindings))
    ensures Condition(s, col, op, normalized, value, conn, true).where
         == s.where + (if s.where == "" then " WHERE " else if conn == And then " AND " else " OR ") + "NOT "
            + ConditionBody(col, op, normalized, value, Count(s.bindings))
  {
    assert " " + "AND" + " " == " AND " && " " + "OR" + " " == " OR ";
    var start := ConditionStart(s.where, conn);
    assert s.where + start + "" == s.where + start;
  }

  /** `where($col, $operator, $value)`. */
  function Where(s: State, col: string, op: string, value: Operand): (r: Result<State>)
    ensures r.Ok? <==> NormalizeOperator(op) in AuthorizedOperators
    ensures r.Err? ==> r.thrown == InvalidOperator(op)
    ensures r.Ok? ==> r.value.where == s.where + (if s.where == "" then " WHERE " else " AND ")
                         + ConditionBody(col, op, NormalizeOperator(op), value, Count(s.bindings))
    ensures r.Ok? ==> r.value.bindings == Bind(s.bindings, NormalizeOperator(op), value)
  {
    ConditionText(s, col, op, NormalizeOperator(op), value, And);
    AddCondition(s, col, op, value, And, false)
  }

  /** `orWhere($col, $operator, $value)`. */
  function OrWhere(s: State, col: string, op: string, value: Operand): (r: Result<State>)
    ensures r.Ok? <==> NormalizeOperator(op) in AuthorizedOperators
    ensures r.Err? ==> r.thrown == InvalidOperator(op)
    ensures r.Ok? ==> r.value.where == s.where + (if s.where == "" then " WHERE " else " OR ")
                         + ConditionBody(col, op, NormalizeOperator(op), value, Count(s.bindings))
    ensures r.Ok? ==> r.value.bindings == Bind(s.bindings, NormalizeOperator(op), value)
  {
    ConditionText(s, col, op, NormalizeOperator(op), value, Or);
    AddCondition(s, col, op, value, Or, false)
  }

  /** `whereNot($col, $operator, $value)`. */
  function WhereNot(s: State, col: string, op: string, value: Operand): (r: Result<State>)
    ensures r.Ok? <==> NormalizeOperator(op) in AuthorizedOperators
    ensures r.Err? ==> r.thrown == InvalidOperator(op)
    ensures r.Ok? ==> r.value.where == s.where + (if s.where == "" then " WHERE " else " AND ") + "NOT "
                         + ConditionBody(col, op, NormalizeOperator(op), value, Count(s.bindings))
    ensures r.Ok? ==> r.value.bindings == Bind(s.bindings, NormalizeOperator(op), value)
  {
    ConditionText(s, col, op, NormalizeOperator(op), value, And);
    AddCondition(s, col, op, value, And, true)
  }

  /** `orWhereNot($col, $operator, $value)`. */
  function OrWhereNot(s: State, col: string, op: string, value: Operand): (r: Result<State>)
    ensures r.Ok? <==> NormalizeOperator(op) in AuthorizedOperators
    ensures r.Err? ==> r.thrown == InvalidOperator(op)
    ensures r.Ok? ==> r.value.where == s.where + (if s.where == "" then " WHERE " else " OR ") + "NOT "
                         + ConditionBody(col, op, NormalizeOperator(op), value, Count(s.bindings))
    ensures r.Ok? ==> r.value.bindings == Bind(s.bindings, NormalizeOperator(op), value)
  {
    ConditionText(s, col, op, NormalizeOperator(op), value, Or);
    AddCondition(s, col, op, value, Or, true)
  }

  /** The operators the `whereIn` family and `find` pass are accepted as spelled. */
  lemma FixedOperatorsAccepted()
    ensures ValidateOperator("IN") == Ok("IN")
    ensures ValidateOperator("NOT IN") == Ok("NOT IN")
    ensures ValidateOperator("=") == Ok("=")
  {
    TrimUnpadded("IN");
    UpperOfUpper("IN");
    TrimUnpadded("NOT IN");
    UpperOfUpper("NOT IN");
    TrimUnpadded("=");
    UpperOfUpper("=");
    assert AuthorizedOperators[9] == "IN" && AuthorizedOperators[10] == "NOT IN" && AuthorizedOperators[0] == "=";
  }

  /** An accepted operator leaves `addCondition` nothing to throw. */
  lemma AcceptedCondition(s: State, col: string, op: string, normalized: string, value: Operand, conn: Connective, negate: bool)
    requires ValidateOperator(op) == Ok(normalized)
    ensures AddCondition(s, col, op, value, conn, negate) == Ok(Condition(s, col, op, normalized, value, conn, negate))
  {
  }

  /** `whereIn($col, $values)`: untyped, so a scalar takes the scalar branch.
      The four list calls are `addCondition` with a fixed operator that always
      passes the allow-list, so each is written here as the accepted condition;
      `ListCallsAddCondition` shows each equals the `addCondition` call. */
  function WhereIn(s: State, col: string, values: Operand): (r: Result<State>)
    ensures r.Ok?
  {
    Ok(Condition(s, col, "IN", "IN", values, And, false))
  }

  /** `orWhereIn($col, array $values)`. */
  function OrWhereIn(s: State, col: string, values: seq<Value>): (r: Result<State>)
    ensures r.Ok?
  {
    Ok(Condition(s, col, "IN", "IN", List(values), Or, false))
  }

  /** `whereNotIn($col, array $values)`. */
  function WhereNotIn(s: State, col: string, values: seq<Value>): (r: Result<State>)
    ensures r.Ok?
  {
    Ok(Condition(s, col, "NOT IN", "NOT IN", List(values), And, false))
  }

  /** `orWhereNotIn($col, array $values)`. */
  function OrWhereNotIn(s: State, col: string, values: seq<Value>): (r: Result<State>)
    ensures r.Ok?
  {
    Ok(Condition(s, col, "NOT IN", "NOT IN", List(values), Or, false))
  }

  /** Each list call is the `addCondition` call of the source, with its
      operator, connective and no negation. */
  lemma ListCallsAddCondition(s: State, col: string, values: Operand, list: seq<Value>)
    ensures WhereIn(s, col, values) == AddCondition(s, col, "IN", values, And, false)
    ensures OrWhereIn(s, col, list) == AddCondition(s, col, "IN", List(list), Or, false)
    ensures WhereNotIn(s, col, list) == AddCondition(s, col, "NOT IN", List(list), And, false)
    ensures OrWhereNotIn(s, col, list) == AddCondition(s, col, "NOT IN", List(list), Or, false)
  {
    FixedOperatorsAccepted();
    AcceptedCondition(s, col, "IN", "IN", values, And, false);
    AcceptedCondition(s, col, "IN", "IN", List(list), Or, false);
    AcceptedCondition(s, col, "NOT IN", "NOT IN", List(list), And, false);
    AcceptedCondition(s, col, "NOT IN", "NOT IN", List(list), Or, false);
  }

  /** The list variants go through `addCondition`, so an empty list emits an
      empty `IN (  )` and binds nothing. */
  lemma WhereInEmptyList(s: State, col: string)
    requires BindingsInv(s.bindings)
    ensures WhereIn(s, col, List([])).value.where == s.where + ConditionStart(s.where, And) + " (" + col + " IN (  )) "
    ensures WhereIn(s, col, List([])).value.bindings == s.bindings
  {
    EmptyListBody(col, Count(s.bindings));
    EmptyListBindsNothing(s.bindings);
  }

  lemma EmptyListBindsNothing(b: Arr<Value>)
    requires BindingsInv(b)
    ensures Bind(b, "IN", List([])) == b
  {
    ListBindFresh(b, []);
    assert b.entries + NewEntries([], []) == b.entries;
  }

  lemma EmptyListBody(col: string, n: nat)
    ensures ConditionBody(col, "IN", "IN", List([]), n) == " (" + col + " IN (  )) "
  {
    assert !IsNullTest("IN");
    assert Placeholders("IN", List([]), n) == [];
  }

  /** `addWhereInCondition`: never called by the public methods. An empty list
      gives `(0 = 1)` for IN and `(1 = 1)` otherwise; names are `:p_in_{n+i}`. */
  function AddWhereInCondition(s: State, col: string, values: seq<Value>, op: string, conn: Connective): (r: State)
    ensures values == [] ==> r.bindings == s.bindings
    ensures values == [] && op == "IN" ==> r.where == s.where + ConditionStart(s.where, conn) + " (0 = 1) "
    ensures values == [] && op != "IN" ==> r.where == s.where + ConditionStart(s.where, conn) + " (1 = 1) "
  {
    if values == [] then
      s.(where := s.where + ConditionStart(s.where, conn) + (if op == "IN" then " (0 = 1) " else " (1 = 1) "))
    else
      var n := Count(s.bindings);
      var names := InListNames(n, |values|);
      var added := Arr(seq(|values|, i requires 0 <= i < |values| => (StrIndex(names[i]), values[i])), 0);
      s.(where := s.where + ConditionStart(s.where, conn) + " (" + col + " " + op + " (" + Implode(", ", names) + ")) ",
         bindings := Merge(s.bindings, added))
  }

  /** `":p_in_" . ($bindingBaseCount + $index)`. */
  function InListName(n: nat): string {
    ":p_in_" + NatToString(n)
  }

  function InListNames(n: nat, count: nat): (names: seq<string>)
    ensures |names| == count && forall i :: 0 <= i < count ==> names[i] == InListName(n + i)
  {
    seq(count, i requires 0 <= i < count => InListName(n + i))
  }

  /** An `:p_in_` name is not one the public methods allocate. */
  lemma InListNameForeign(n: nat)
    ensures PlaceholderIndex(InListName(n)).None?
  {
    var name := InListName(n);
    assert name[..3] == ":p_" && name[3] == 'i' && name[2] == '_';
    assert !AllDigits(name[3..]) by {
      assert name[3..][0] == 'i';
    }
    assert !AllDigits(name[2..]) by {
      assert name[2..][0] == '_';
    }
  }

  /** Different numbers give different `:p_in_` names. */
  lemma InListNameInjective(m: nat, n: nat)
    requires InListName(m) == InListName(n)
    ensures m == n
  {
    assert InListName(m)[6..] == NatToString(m);
    assert InListName(n)[6..] == NatToString(n);
    ParseNatToString(m);
    ParseNatToString(n);
  }

  /** The non-empty branch of `addWhereInCondition`: the values are appended
      in order under `:p_in_{n+i}`, names no existing binding uses, and the
      existing bindings stay where they were. */
  lemma AddWhereInConditionBinds(s: State, col: string, values: seq<Value>, op: string, conn: Connective)
    requires BindingsInv(s.bindings) && values != []
    ensures var names := InListNames(Count(s.bindings), |values|);
      && AddWhereInCondition(s, col, values, op, conn).bindings
         == Arr(s.bindings.entries + NewEntries(names, values), s.bindings.next)
      && forall i :: 0 <= i < |names| ==> StrKey(names[i]) !in Keys(s.bindings)
  {
    var b := s.bindings;
    var n := Count(b);
    var names := InListNames(n, |values|);
    var added := Arr(seq(|values|, i requires 0 <= i < |values| => (StrIndex(names[i]), values[i])), 0);
    assert added.entries == NewEntries(names, values) by {
      forall i | 0 <= i < |values|
        ensures added.entries[i] == (StrKey(names[i]), values[i])
      {
        NameKey(names[i]);
      }
    }
    forall i | 0 <= i < |names|
      ensures StrKey(names[i]) !in Keys(b)
    {
      InListNameForeign(n + i);
    }
    InListFreshDistinct(b, names, values, n);
    assert AllStrKeys(added.entries);
    assert b.entries + added.entries == b.entries + NewEntries(names, values);
    MergeFreshStrings(b, added);
  }

  lemma InListFreshDistinct(b: Arr<Value>, names: seq<string>, values: seq<Value>, n: nat)
    requires BindingsInv(b) && names == InListNames(n, |values|)
    requires forall i :: 0 <= i < |names| ==> StrKey(names[i]) !in Keys(b)
    ensures Distinct(KeysOf(b.entries + NewEntries(names, values)))
  {
    var q := b.entries + NewEntries(names, values);
    forall i, j | 0 <= i < j < |q|
      ensures KeysOf(q)[i] != KeysOf(q)[j]
    {
      InListPairDistinct(b, names, values, n, i, j);
    }
  }

  lemma InListPairDistinct(b: Arr<Value>, names: seq<string>, values: seq<Value>, n: nat, i: nat, j: nat)
    requires BindingsInv(b) && names == InListNames(n, |values|)
    requires forall i :: 0 <= i < |names| ==> StrKey(names[i]) !in Keys(b)
    requires i < j < |b.entries| + |values|
    ensures var q := b.entries + NewEntries(names, values);
      KeysOf(q)[i] != KeysOf(q)[j]
  {
    var es := NewEntries(names, values);
    var q := b.entries + es;
    var m := |b.entries|;
    if i >= m {
      assert q[i] == es[i - m] && q[j] == es[j - m];
      if names[i - m] == names[j - m] {
        InListNameInjective(n + i - m, n + j - m);
      }
    } else if j >= m {
      assert q[j] == es[j - m] && q[i] == b.entries[i];
      assert KeysOf(b.entries)[i] == q[i].0;
    } else {
      assert KeysOf(b.entries)[i] == q[i].0 && KeysOf(b.entries)[j] == q[j].0;
    }
  }

  // ------------------------------------------------------------ raw and between

  /** `whereRaw($raw)` as written: always " AND ", even for the first condition. */
  function WhereRaw(s: State, raw: string): (r: State)
    ensures r.bindings == s.bindings
    ensures r.where == s.where + " AND " + raw + " "
  {
    s.(where := s.where + " AND " + raw + " ")
  }

  /** `orWhereRaw($raw)` as written: always " OR ". */
  function OrWhereRaw(s: State, raw: string): (r: State)
    ensures r.bindings == s.bindings
    ensures r.where == s.where + " OR " + raw + " "
  {
    s.(where := s.where + " OR " + raw + " ")
  }

  /** `whereRaw` as evidently intended: the first condition opens with WHERE. */
  function WhereRawFixed(s: State, raw: string): (r: State)
    ensures r.bindings == s.bindings
    ensures WhereShape(s.where) ==> WhereShape(r.where)
  {
    s.(where := s.where + ConditionStart(s.where, And) + raw + " ")
  }

  function OrWhereRawFixed(s: State, raw: string): (r: State)
    ensures r.bindings == s.bindings
    ensures WhereShape(s.where) ==> WhereShape(r.where)
  {
    s.(where := s.where + ConditionStart(s.where, Or) + raw + " ")
  }

  /** Once a condition exists, the corrected raw calls write what the written ones do. */
  lemma RawFixedAgrees(s: State, raw: string)
    requires s.where != ""
    ensures WhereRawFixed(s, raw) == WhereRaw(s, raw)
    ensures OrWhereRawFixed(s, raw) == OrWhereRaw(s, raw)
  {
    assert ConditionStart(s.where, And) == " AND ";
    assert ConditionStart(s.where, Or) == " OR ";
  }

  /** A where-string SQL can parse starts with WHERE, or is empty. */
  predicate WhereShape(w: string) {
    w == "" || StartsWith(w, " WHERE ")
  }

  lemma StartsWithExtend(w: string, more: string, p: string)
    requires StartsWith(w, p)
    ensures StartsWith(w + more, p)
  {
    assert (w + more)[..|p|] == w[..|p|];
  }

  lemma ConjoinShape(w: string, conn: Connective, negate: bool, clause: string)
    requires WhereShape(w)
    ensures WhereShape(Conjoin(w, conn, negate, clause))
  {
    var rest := Negation(negate) + clause;
    if w == "" {
      assert Conjoin(w, conn, negate, clause) == " WHERE " + rest;
    } else {
      assert Conjoin(w, conn, negate, clause) == w + (" " + Word(conn) + " " + rest);
      StartsWithExtend(w, " " + Word(conn) + " " + rest, " WHERE ");
    }
  }

  /** Conditions keep the where-string well-formed. */
  lemma AddConditionShape(s: State, col: string, op: string, value: Operand, conn: Connective, negate: bool)
    requires WhereShape(s.where)
    ensures var r := AddCondition(s, col, op, value, conn, negate); r.Ok? ==> WhereShape(r.value.where)
  {
    var normalized := NormalizeOperator(op);
    ConjoinShape(s.where, conn, negate, ConditionBody(col, op, normalized, value, Count(s.bindings)));
  }

  /** The written `whereRaw` breaks it: on a builder without conditions the
      compiled SQL reads `... FROM users   AND active = 1 `. */
  lemma WhereRawFirstBreaksShape(s: State, raw: string)
    requires s.where == ""
    ensures !WhereShape(WhereRaw(s, raw).where)
    ensures !WhereShape(OrWhereRaw(s, raw).where)
  {
    assert WhereRaw(s, raw).where[1] == 'A';
    assert OrWhereRaw(s, raw).where[1] == 'O';
  }

  function ValueAt(values: seq<Value>, i: nat): Value {
    if i < |values| then values[i] else Null
  }

  /** The text `whereBetween` adds: `(col BETWEEN :pN AND :pN+1)`, N being the
      binding count, behind WHERE or AND. */
  function BetweenClause(where: string, col: string, n: nat): string {
    where + (if where == "" then " WHERE " else " AND ") + BetweenBody(col, n)
  }

  function BetweenBody(col: string, n: nat): string {
    "(" + col + " BETWEEN " + ScalarName(n) + " AND " + ScalarName(n + 1) + ")"
  }

  /** The two `$this->bindings[] = ...` lines: positional integer keys. */
  function PositionalPair(b: Arr<Value>, low: Value, high: Value): (r: Arr<Value>)
    ensures Valid(b) ==> Values(r) == Values(b) + [low, high]
  {
    Push(Push(b, low), high)
  }

  /** `whereBetween($col, $values)` as written: the SQL names `:pN` and `:pN+1`,
      but the values are appended under positional integer keys. A missing
      `$values[0]` or `$values[1]` reads as null. */
  function WhereBetween(s: State, col: string, values: seq<Value>): (r: State)
    ensures r.where == BetweenClause(s.where, col, Count(s.bindings))
    ensures Valid(s.bindings) ==> Values(r.bindings) == Values(s.bindings) + [ValueAt(values, 0), ValueAt(values, 1)]
  {
    s.(where := BetweenClause(s.where, col, Count(s.bindings)),
       bindings := PositionalPair(s.bindings, ValueAt(values, 0), ValueAt(values, 1)))
  }

  lemma PositionalPairEntries(b: Arr<Value>, low: Value, high: Value)
    requires Valid(b)
    ensures KeysOf(PositionalPair(b, low, high).entries) == KeysOf(b.entries) + [IntKey(b.next), IntKey(b.next + 1)]
  {
    var b1 := Push(b, low);
    var e0 := [(IntKey(b.next), low)];
    var e1 := [(IntKey(b.next + 1), high)];
    assert b1.entries == b.entries + e0 && b1.next == b.next + 1;
    assert Push(b1, high).entries == b1.entries + e1;
    KeysOfAppend(b.entries, e0);
    KeysOfAppend(b1.entries, e1);
  }

  /** The two names the SQL of the written `whereBetween` uses are left unbound. */
  lemma PositionalPairUnbound(b: Arr<Value>, low: Value, high: Value)
    requires BindingsInv(b)
    ensures Get(PositionalPair(b, low, high), StrKey(ScalarName(Count(b)))).None?
    ensures Get(PositionalPair(b, low, high), StrKey(ScalarName(Count(b) + 1))).None?
  {
    var n := Count(b);
    assert StrKey(ScalarName(n)) !in Keys(b) by {
      ScalarNameIndex(n);
      FreshName(b, ScalarName(n));
    }
    assert StrKey(ScalarName(n + 1)) !in Keys(b) by {
      ScalarNameIndex(n + 1);
      FreshName(b, ScalarName(n + 1));
    }
    PositionalPairKeepsAbsent(b, low, high, StrKey(ScalarName(n)));
    PositionalPairKeepsAbsent(b, low, high, StrKey(ScalarName(n + 1)));
  }

  /** The pair adds integer keys only, so a string key absent before stays absent. */
  lemma PositionalPairKeepsAbsent(b: Arr<Value>, low: Value, high: Value, k: Key)
    requires Valid(b) && k.StrKey? && k !in Keys(b)
    ensures Get(PositionalPair(b, low, high), k).None?
  {
    PositionalPairEntries(b, low, high);
    assert k !in [IntKey(b.next), IntKey(b.next + 1)];
  }

  /** So the statement PDO prepares names two parameters nobody binds. */
  lemma WhereBetweenNamesUnbound(s: State, col: string, values: seq<Value>)
    requires BindingsInv(s.bindings)
    ensures var n := Count(s.bindings);
      var r := WhereBetween(s, col, values);
      Get(r.bindings, StrKey(ScalarName(n))).None? && Get(r.bindings, StrKey(ScalarName(n + 1))).None?
  {
    PositionalPairUnbound(s.bindings, ValueAt(values, 0), ValueAt(values, 1));
  }

  /** A concrete instance: `whereBetween('age', [18, 65])` on a fresh builder
      names `:p0` and `:p1` in the SQL ... */
  lemma WhereBetweenExampleSql(c: Connection)
    ensures WhereBetween(Initial(c), "age", [Int(18), Int(65)]).where == " WHERE (age BETWEEN :p0 AND :p1)"
  {
    BetweenAgeText();
    assert Count(Initial(c).bindings) == 0 && Initial(c).where == "";
  }

  lemma BetweenAgeText()
    ensures BetweenClause("", "age", 0) == " WHERE (age BETWEEN :p0 AND :p1)"
  {
    FirstNames();
    assert BetweenClause("", "age", 0) == " WHERE " + "(" + "age" + " BETWEEN " + ":p0" + " AND " + ":p1" + ")";
  }

  lemma FirstNames()
    ensures ScalarName(0) == ":p0" && ScalarName(1) == ":p1"
  {
    assert NatToString(0) == "0";
    assert NatToString(1) == "1";
  }

  /** ... but binds the keys 0 and 1. */
  lemma WhereBetweenExampleKeys(c: Connection)
    ensures Keys(WhereBetween(Initial(c), "age", [Int(18), Int(65)]).bindings) == [IntKey(0), IntKey(1)]
  {
    PositionalPairEntries(Empty(), Int(18), Int(65));
  }

  /** The corrected binding step: the values under the two names the SQL uses. */
  function NamedPair(b: Arr<Value>, low: Value, high: Value): Arr<Value> {
    var n := Count(b);
    Set(Set(b, StrIndex(ScalarName(n)), low), StrIndex(ScalarName(n + 1)), high)
  }

  /** `whereBetween` as evidently intended. */
  function WhereBetweenNamed(s: State, col: string, values: seq<Value>): (r: State)
    ensures r.where == WhereBetween(s, col, values).where
  {
    s.(where := BetweenClause(s.where, col, Count(s.bindings)),
       bindings := NamedPair(s.bindings, ValueAt(values, 0), ValueAt(values, 1)))
  }

  lemma AppendPair<T>(s: seq<T>, x: T, y: T)
    ensures s + [x] + [y] == s + [x, y]
  {
  }

  /** The corrected pair appends exactly two fresh entries, under `:pN` and
      `:pN+1`, and keeps the bindings invariant. */
  lemma NamedPairBinds(b: Arr<Value>, low: Value, high: Value)
    requires BindingsInv(b)
    ensures var n := Count(b);
      && NamedPair(b, low, high).entries == b.entries + [(StrKey(ScalarName(n)), low), (StrKey(ScalarName(n + 1)), high)]
      && BindingsInv(NamedPair(b, low, high))
  {
    var n := Count(b);
    var x, y := (StrKey(ScalarName(n)), low), (StrKey(ScalarName(n + 1)), high);
    var b1 := Set(b, StrIndex(ScalarName(n)), low);
    assert b1.entries == b.entries + [x] && BindingsInv(b1) by {
      ScalarBindFresh(b, low);
    }
    var b2 := Set(b1, StrIndex(ScalarName(n + 1)), high);
    assert b2.entries == b1.entries + [y] && BindingsInv(b2) by {
      assert Count(b1) == n + 1;
      ScalarBindFresh(b1, high);
    }
    AppendPair(b.entries, x, y);
  }

  /** On string-keyed bindings the corrected pair keeps every key a string. */
  lemma NamedPairStrKeys(b: Arr<Value>, low: Value, high: Value)
    requires AllStrKeys(b.entries)
    ensures AllStrKeys(NamedPair(b, low, high).entries)
  {
    var n := Count(b);
    NameKey(ScalarName(n));
    NameKey(ScalarName(n + 1));
    SetStrKeys(b, StrIndex(ScalarName(n)), low);
    SetStrKeys(Set(b, StrIndex(ScalarName(n)), low), StrIndex(ScalarName(n + 1)), high);
  }

  lemma NamedPairLookup(b: Arr<Value>, low: Value, high: Value)
    requires BindingsInv(b)
    ensures Get(NamedPair(b, low, high), StrKey(ScalarName(Count(b)))) == Some(low)
    ensures Get(NamedPair(b, low, high), StrKey(ScalarName(Count(b) + 1))) == Some(high)
  {
    var n := Count(b);
    NameKey(ScalarName(n));
    NameKey(ScalarName(n + 1));
    ScalarNameIndex(n);
    ScalarNameIndex(n + 1);
    assert ScalarName(n) != ScalarName(n + 1);
  }

  /** The corrected `whereBetween` binds both names it writes. */
  lemma WhereBetweenNamedBinds(s: State, col: string, values: seq<Value>)
    requires BindingsInv(s.bindings)
    ensures var n := Count(s.bindings);
      var r := WhereBetweenNamed(s, col, values);
      && Get(r.bindings, StrKey(ScalarName(n))) == Some(ValueAt(values, 0))
      && Get(r.bindings, StrKey(ScalarName(n + 1))) == Some(ValueAt(values, 1))
      && BindingsInv(r.bindings)
  {
    NamedPairBinds(s.bindings, ValueAt(values, 0), ValueAt(values, 1));
    NamedPairLookup(s.bindings, ValueAt(values, 0), ValueAt(values, 1));
  }

  // ------------------------------------------------------------ other clauses

  function Table(s: State, name: string): State {
    s.(table := name)
  }

  /** `select(...$columns)`: with no columns the list is "" rather than "*". */
  function Select(s: State, columns: seq<string>): State {
    s.(select := Implode(", ", columns))
  }

  function InnerJoin(s: State, table: string, on: string): State {
    s.(joins := s.joins + "INNER JOIN " + table + " ON " + on + " ")
  }

  function LeftJoin(s: State, table: string, on: string): State {
    s.(joins := s.joins + "LEFT JOIN " + table + " ON " + on + " ")
  }

  function Debug(s: State, enable: bool): State {
    s.(debug := enable)
  }

  function SetModel(s: State, cls: string): State {
    s.(modelClass := Some(cls))
  }

  /** `orderBy($column, $direction)`: appends "column DIRECTION" with the
      direction upper-cased; nothing else changes. */
  function OrderBy(s: State, column: string, direction: string): (r: State)
    ensures r.orderBy == s.orderBy + [column + " " + Upper(direction)]
    ensures r.(orderBy := s.orderBy) == s
  {
    s.(orderBy := s.orderBy + [column + " " + Upper(direction)])
  }

  /** `orderBy($column)`: the direction defaults to `'ASC'`. */
  function OrderByDefault(s: State, column: string): (r: State)
    ensures r.orderBy == s.orderBy + [column + " ASC"]
    ensures r.(orderBy := s.orderBy) == s
  {
    UpperOfUpper("ASC");
    assert column + " " + "ASC" == column + " ASC";
    OrderBy(s, column, "ASC")
  }

  /** The direction is case-insensitive: `desc` and `DESC` sort alike. */
  lemma OrderByDirectionCase(s: State, column: string, direction: string)
    ensures OrderBy(s, column, Upper(direction)) == OrderBy(s, column, direction)
    ensures OrderBy(s, column, "asc") == OrderByDefault(s, column)
  {
    UpperIdempotent(direction);
    UpperOfUpper("ASC");
    var u := Upper("asc");
    assert u[0] == 'A' && u[1] == 'S' && u[2] == 'C';
    assert u == "ASC";
  }

  /** Each `orderBy` adds its term at the end of the ORDER BY clause. */
  lemma OrderByExtendsClause(s: State, column: string, direction: string)
    ensures OrderByClause(OrderBy(s, column, direction).orderBy)
         == (if s.orderBy == [] then " ORDER BY " else OrderByClause(s.orderBy) + ", ") + column + " " + Upper(direction)
  {
    var term := column + " " + Upper(direction);
    if s.orderBy != [] {
      ImplodeConcat(", ", s.orderBy, [term]);
    }
  }

  /** `groupBy(...$columns)`: `array_merge` of two lists is concatenation. */
  function GroupBy(s: State, columns: seq<string>): (r: State)
    ensures r.groupBy == s.groupBy + columns
    ensures r.(groupBy := s.groupBy) == s
  {
    s.(groupBy := s.groupBy + columns)
  }

  /** Two `groupBy` calls group by what one call with both lists would. */
  lemma GroupByMerges(s: State, a: seq<string>, b: seq<string>)
    ensures GroupBy(GroupBy(s, a), b) == GroupBy(s, a + b)
  {
    assert s.groupBy + a + b == s.groupBy + (a + b);
  }

  /** Later columns follow the earlier ones in the GROUP BY clause. */
  lemma GroupByExtendsClause(s: State, columns: seq<string>)
    requires s.groupBy != [] && columns != []
    ensures GroupByClause(GroupBy(s, columns).groupBy) == GroupByClause(s.groupBy) + ", " + Implode(", ", columns)
  {
    ImplodeConcat(", ", s.groupBy, columns);
  }

  function Limit(s: State, n: int): State {
    s.(limit := Some(n))
  }

  function Offset(s: State, n: int): State {
    s.(offset := Some(n))
  }

  // ------------------------------------------------------------ toSql

  function GroupByClause(columns: seq<string>): (r: string)
    ensures r == "" <==> columns == []
    ensures columns != [] ==> StartsWith(r, " GROUP BY ") && r[10..] == Implode(", ", columns)
  {
    if columns == [] then "" else " GROUP BY " + Implode(", ", columns)
  }

  function OrderByClause(terms: seq<string>): (r: string)
    ensures r == "" <==> terms == []
    ensures terms != [] ==> StartsWith(r, " ORDER BY ") && r[10..] == Implode(", ", terms)
  {
    if terms == [] then "" else " ORDER BY " + Implode(", ", terms)
  }

  /** LIMIT only when a limit is set, and OFFSET only behind a LIMIT. */
  function LimitClause(limit: Option<int>, offset: Option<int>): (r: string)
    ensures limit.None? ==> r == ""
    ensures limit.Some? ==> StartsWith(r, " LIMIT " + IntToString(limit.value))
    ensures limit.Some? ==> (offset.Some? <==> |r| > |" LIMIT " + IntToString(limit.value)|)
    ensures limit.Some? && offset.Some? ==>
      r[|" LIMIT " + IntToString(limit.value)|..] == " OFFSET " + IntToString(offset.value)
  {
    match limit
    case None => ""
    case Some(l) =>
      var head := " LIMIT " + IntToString(l);
      match offset
      case None => head
      case Some(o) => head + " OFFSET " + IntToString(o)
  }

  /** The SELECT head: everything up to and including the where-string. */
  function SelectHead(s: State): string {
    "SELECT " + s.select + " FROM " + s.table + " " + s.joins + " " + s.where
  }

  /** `toSql()`: SELECT, FROM, joins, where, GROUP BY, ORDER BY, LIMIT in that order. */
  function ToSql(s: State): (r: string)
    ensures StartsWith(r, SelectHead(s))
    ensures r[|SelectHead(s)|..] == GroupByClause(s.groupBy) + OrderByClause(s.orderBy) + LimitClause(s.limit, s.offset)
  {
    var head := SelectHead(s);
    var tail := GroupByClause(s.groupBy) + OrderByClause(s.orderBy) + LimitClause(s.limit, s.offset);
    assert (head + tail)[..|head|] == head;
    assert (head + tail)[|head|..] == tail;
    head + tail
  }

  /** An offset without a limit never reaches the SQL. */
  lemma OffsetNeedsLimit(s: State, o: int)
    requires s.limit.None?
    ensures ToSql(s.(offset := Some(o))) == ToSql(s)
  {
  }

  /** The SQL depends only on the text parts: bindings, debug flag and model
      class never change it. */
  lemma ToSqlIgnoresBindings(s: State, b: Arr<Value>, debug: bool, cls: Option<string>)
    ensures ToSql(s.(bindings := b, debug := debug, modelClass := cls)) == ToSql(s)
  {
  }

  // ------------------------------------------------------------ execution

  datatype ParamType = ParamInt | ParamStr

  /** One `bindValue($placeholder, $value, $type)` call. */
  datatype Param = Param(name: Key, value: Value, ty: ParamType)

  /** What `prepare` is given and what is bound on the statement. */
  datatype Statement = Statement(sql: string, params: seq<Param>)

  /** `is_int($value) ? PDO::PARAM_INT : PDO::PARAM_STR` over the bindings, in order. */
  function BindParams(b: Arr<Value>): (ps: seq<Param>)
    ensures |ps| == Count(b)
    ensures forall i :: 0 <= i < |ps| ==> ps[i].name == b.entries[i].0 && ps[i].value == b.entries[i].1
    ensures forall i :: 0 <= i < |ps| ==> (ps[i].ty == ParamInt <==> ps[i].value.Int?)
  {
    var es := b.entries;
    seq(|es|, i requires 0 <= i < |es| => Param(es[i].0, es[i].1, if es[i].1.Int? then ParamInt else ParamStr))
  }

  /** What `execute` + `fetchAll` produced: rows, or a `PDOException`. */
  datatype ReadOutcome = Rows(rows: seq<Arr<Value>>) | ReadFailed

  /** `get()` returns a Collection, or a plain `[]` after a `PDOException`. */
  datatype GetResult = Collected(c: Collection<Item>) | EmptyArray

  datatype GetOutcome = GetOutcome(state: State, stmt: Statement, result: GetResult)

  /** `if ($this->modelClass)`: PHP truthiness of the class name. */
  predicate HasModel(s: State) {
    s.modelClass.Some? && Truthy(Str(s.modelClass.value))
  }

  /** One fetched row as `get` hands it back: hydrated through `fill` on a new
      model when a model class is set, the row itself otherwise. */
  function Hydrate(s: State, row: Arr<Value>): Item {
    if HasModel(s) then Instance(s.modelClass.value, SetAll(Empty(), row.entries)) else Row(row)
  }

  /** The one state change `get` makes: an empty ORDER BY becomes
      `table.created_at DESC`. */
  function DefaultOrder(s: State): (r: State)
    ensures s.orderBy == [] ==> r.orderBy == [s.table + ".created_at DESC"]
    ensures s.orderBy != [] ==> r.orderBy == s.orderBy
    ensures r.(orderBy := s.orderBy) == s
  {
    if s.orderBy == [] then
      UpperOfUpper("DESC");
      assert s.table + ".created_at" + " " + "DESC" == s.table + ".created_at DESC";
      OrderBy(s, s.table + ".created_at", "DESC")
    else s
  }

  /** `get()`. */
  function Fetch(s: State, outcome: ReadOutcome): (r: GetOutcome)
    ensures r.state == DefaultOrder(s)
    ensures r.stmt == Statement(ToSql(r.state), BindParams(s.bindings))
    ensures outcome.ReadFailed? <==> r.result.EmptyArray?
    ensures outcome.Rows? ==>
      && IsList(r.result.c.items)
      && Values(r.result.c.items) == seq(|outcome.rows|, i requires 0 <= i < |outcome.rows| => Hydrate(s, outcome.rows[i]))
  {
    var s1 := DefaultOrder(s);
    var stmt := Statement(ToSql(s1), BindParams(s1.bindings));
    match outcome
    case ReadFailed => GetOutcome(s1, stmt, EmptyArray)
    case Rows(rows) =>
      GetOutcome(s1, stmt, Collected(Collection(FromList(seq(|rows|, i requires 0 <= i < |rows| => Hydrate(s1, rows[i]))))))
  }

  /** A hydrated model holds exactly the row's fields. */
  lemma HydrateKeepsFields(s: State, row: Arr<Value>, k: Key)
    requires Valid(row)
    ensures Get(Fields(Hydrate(s, row)), k) == Get(row, k)
  {
    if HasModel(s) {
      GetSetAll(Empty(), row.entries, k);
    }
  }

  /** `get()->pluck($key)` reads each fetched row's column, in order, whether
      or not the rows were hydrated into models. */
  lemma PluckFetched(s: State, rows: seq<Arr<Value>>, key: string)
    requires forall i :: 0 <= i < |rows| ==> Valid(rows[i])
    ensures var out := Fetch(s, Rows(rows));
      && out.result.Collected?
      && |Values(Pluck(out.result.c, key).items)| == |rows|
      && forall i :: 0 <= i < |rows| ==> Values(Pluck(out.result.c, key).items)[i] == Get(rows[i], StrIndex(key)).GetOr(Null)
  {
    var out := Fetch(s, Rows(rows));
    var items := Values(out.result.c.items);
    forall i | 0 <= i < |rows|
      ensures Get(Fields(items[i]), StrIndex(key)) == Get(rows[i], StrIndex(key))
    {
      assert items[i] == Hydrate(s, rows[i]);
      HydrateKeepsFields(s, rows[i], StrIndex(key));
    }
  }

  /** `first()`: `$result[0] ?? []`; `None` stands for that `[]`. */
  function First(s: State, outcome: ReadOutcome): (r: (GetOutcome, Option<Item>))
    ensures r.0 == Fetch(s, outcome)
    ensures r.1.Some? <==> outcome.Rows? && |outcome.rows| > 0
    ensures r.1.Some? ==> r.1.value == Hydrate(s, outcome.rows[0])
  {
    var g := Fetch(s, outcome);
    match g.result
    case EmptyArray => (g, None)
    case Collected(c) => (g, Collections.First(c))
  }

  const CountSelect: string := "COUNT(*) AS value"

  /** `['value'] ?? 0` on the first fetched item, if any. */
  function ReadCount(first: Option<Item>): (v: Value)
    ensures v != Null
    ensures first.None? ==> v == Int(0)
    ensures first.Some? && v != Int(0) ==> Get(Fields(first.value), StrIndex("value")) == Some(v)
  {
    match first
    case None => Int(0)
    case Some(item) =>
      match Get(Fields(item), StrIndex("value"))
      case Some(v) => if v == Null then Int(0) else v
      case None => Int(0)
  }

  /** `count()`: runs `get()` with `COUNT(*) AS value` selected, reads
      `[0]['value'] ?? 0`, and puts the old select back. */
  function CountRows(s: State, outcome: ReadOutcome): (r: (GetOutcome, Value))
    ensures r.0.state == DefaultOrder(s)
    ensures r.0.stmt.sql == ToSql(DefaultOrder(s.(select := CountSelect)))
    ensures r.1 != Null
    ensures !(outcome.Rows? && outcome.rows != []) ==> r.1 == Int(0)
    ensures outcome.Rows? && outcome.rows != [] && Valid(outcome.rows[0]) && r.1 != Int(0) ==>
      Get(outcome.rows[0], StrIndex("value")) == Some(r.1)
  {
    var counting := s.(select := CountSelect);
    var (g, first) := First(counting, outcome);
    if outcome.Rows? && outcome.rows != [] && Valid(outcome.rows[0]) then
      HydrateKeepsFields(counting, outcome.rows[0], StrIndex("value"));
      (GetOutcome(g.state.(select := s.select), g.stmt, g.result), ReadCount(first))
    else
      (GetOutcome(g.state.(select := s.select), g.stmt, g.result), ReadCount(first))
  }

  /** `find($id)`: `where('id', '=', $id)->first()`, which cannot throw. */
  function Find(s: State, id: Value, outcome: ReadOutcome): (r: Result<(GetOutcome, Option<Item>)>)
    ensures r.Ok?
    ensures r.value == First(Condition(s, "id", "=", "=", Scalar(id), And, false), outcome)
  {
    FixedOperatorsAccepted();
    AcceptedCondition(s, "id", "=", "=", Scalar(id), And, false);
    Ok(First(Where(s, "id", "=", Scalar(id)).value, outcome))
  }

  /** The id `find` looks for is bound last, under the next scalar name, typed
      as an integer exactly when it is one. */
  lemma FindBindsId(s: State, id: Value, outcome: ReadOutcome)
    requires BindingsInv(s.bindings)
    ensures var ps := Find(s, id, outcome).value.0.stmt.params;
      var n := Count(s.bindings);
      |ps| == n + 1 && ps[n] == Param(StrKey(ScalarName(n)), id, if id.Int? then ParamInt else ParamStr)
  {
    BindScalarAppends(s.bindings, id);
  }

  // ------------------------------------------------------------ insert / update / delete

  /** `int|false`. */
  datatype WriteResult = Written(n: int) | False

  /** `execute()` returned true and `lastInsertId()` this text; or false; or threw. */
  datatype InsertOutcome = InsertExecuted(success: bool, lastInsertId: string) | InsertFailed

  /** `rowCount()` after a successful `execute()`, or a `PDOException`. */
  datatype WriteOutcome = Executed(rowCount: nat) | WriteFailed

  function Columns(values: Arr<Value>): (cols: seq<string>)
    ensures |cols| == Count(values) && forall i :: 0 <= i < |cols| ==> cols[i] == KeyString(Keys(values)[i])
  {
    seq(Count(values), i requires 0 <= i < Count(values) => KeyString(Keys(values)[i]))
  }

  /** `foreach ($values as $column => $value) $bindings[$prefix . $column] = $value;` */
  function PrefixedBindings(prefix: string, values: Arr<Value>): Arr<Value> {
    var cols := Columns(values);
    SetAll(Empty(), seq(|cols|, i requires 0 <= i < |cols| => (StrIndex(prefix + cols[i]), Values(values)[i])))
  }

  /** Distinct keys give distinct prefixed names, so the bindings come out as
      one entry per column, in column order. */
  /** `es` holds, in key order, each value of `values` under `prefix` + its key. */
  predicate PrefixedOf(prefix: string, values: Arr<Value>, es: seq<(Key, Value)>) {
    && |es| == |values.entries|
    && forall i :: 0 <= i < |es| ==> es[i] == (StrKey(prefix + KeyString(values.entries[i].0)), values.entries[i].1)
  }

  lemma PrefixedBindingsInOrder(prefix: string, values: Arr<Value>)
    requires Valid(values) && |prefix| > 0 && prefix[0] == ':'
    ensures PrefixedOf(prefix, values, PrefixedBindings(prefix, values).entries)
    ensures Distinct(KeysOf(PrefixedBindings(prefix, values).entries))
  {
    var cols := Columns(values);
    var es := seq(|cols|, i requires 0 <= i < |cols| => (StrIndex(prefix + cols[i]), Values(values)[i]));
    forall i | 0 <= i < |cols|
      ensures es[i].0 == StrKey(prefix + cols[i])
    {
      NameKey(prefix + cols[i]);
    }
    assert Distinct(KeysOf(es)) by {
      forall i, j | 0 <= i < j < |es|
        ensures KeysOf(es)[i] != KeysOf(es)[j]
      {
        if cols[i] == cols[j] {
          KeyStringInjective(Keys(values)[i], Keys(values)[j]);
        }
        assert (prefix + cols[i])[|prefix|..] == cols[i];
        assert (prefix + cols[j])[|prefix|..] == cols[j];
      }
    }
    SetAllFresh(es);
  }

  datatype InsertOutput = InsertOutput(stmt: Option<Statement>, result: WriteResult)

  /** `array_map(fn($col) => ":$col", $columns)`. */
  function ColonNames(cols: seq<string>): (names: seq<string>)
    ensures |names| == |cols| && forall i :: 0 <= i < |cols| ==> names[i] == ":" + cols[i]
  {
    seq(|cols|, i requires 0 <= i < |cols| => ":" + cols[i])
  }

  function InsertSql(table: string, cols: seq<string>): string {
    "INSERT INTO " + table + " (" + Implode(", ", cols) + ") VALUES (" + Implode(", ", ColonNames(cols)) + ")"
  }

  /** `insert($values)`: refuses an empty map before preparing anything; the
      id comes back through an `(int)` cast of `lastInsertId()`. */
  function Insert(s: State, values: Arr<Value>, outcome: InsertOutcome): (r: InsertOutput)
    ensures r.stmt.None? <==> Count(values) == 0
    ensures r.stmt.None? ==> r.result == False
    ensures r.stmt.Some? ==> r.stmt.value.sql == InsertSql(s.table, Columns(values))
    ensures r.result.Written? <==> r.stmt.Some? && outcome.InsertExecuted? && outcome.success
    ensures r.result.Written? ==> r.result.n == IntCast(outcome.lastInsertId)
  {
    if Count(values) == 0 then InsertOutput(None, False)
    else
      var stmt := Statement(InsertSql(s.table, Columns(values)), BindParams(PrefixedBindings(":", values)));
      match outcome
      case InsertExecuted(success, id) => InsertOutput(Some(stmt), if success then Written(IntCast(id)) else False)
      case InsertFailed => InsertOutput(Some(stmt), False)
  }

  /** The column list and the placeholder list follow the same key order, and
      each column's value is bound under its own `:column` name. */
  lemma InsertColumnsMatchPlaceholders(s: State, values: Arr<Value>, outcome: InsertOutcome)
    requires Valid(values) && Count(values) > 0
    ensures var ps := Insert(s, values, outcome).stmt.value.params;
      |ps| == Count(values)
      && forall i :: 0 <= i < |ps| ==>
           ps[i].name == StrKey(":" + KeyString(values.entries[i].0)) && ps[i].value == values.entries[i].1
  {
    InsertParams(s, values, outcome);
    PrefixedParams(values);
  }

  lemma PrefixedParams(values: Arr<Value>)
    requires Valid(values)
    ensures var ps := BindParams(PrefixedBindings(":", values));
      |ps| == Count(values)
      && forall i :: 0 <= i < |ps| ==>
           ps[i].name == StrKey(":" + KeyString(values.entries[i].0)) && ps[i].value == values.entries[i].1
  {
    PrefixedBindingsInOrder(":", values);
  }

  lemma InsertParams(s: State, values: Arr<Value>, outcome: InsertOutcome)
    requires Count(values) > 0
    ensures Insert(s, values, outcome).stmt.value.params == BindParams(PrefixedBindings(":", values))
  {
  }

  /** `update` names its values `:u_column`. */
  function UpdateName(column: string): string {
    ":u_" + column
  }

  datatype UpdateOutput = UpdateOutput(stmt: Option<Statement>, result: WriteResult)

  /** `"{$column} = {$placeholder}"` for each column. */
  function SetClauses(cols: seq<string>): (sets: seq<string>)
    ensures |sets| == |cols| && forall i :: 0 <= i < |cols| ==> sets[i] == cols[i] + " = " + UpdateName(cols[i])
  {
    seq(|cols|, i requires 0 <= i < |cols| => cols[i] + " = " + UpdateName(cols[i]))
  }

  function UpdateSql(table: string, cols: seq<string>, where: string): string {
    "UPDATE " + table + " SET " + Implode(", ", SetClauses(cols)) + " " + where
  }

  /** `array_merge($updateBindings, $this->bindings)`. */
  function UpdateBindings(values: Arr<Value>, b: Arr<Value>): Arr<Value> {
    Merge(PrefixedBindings(":u_", values), b)
  }

  /** `update($values)`: refuses an empty table name or an empty map; has no
      guard against a missing WHERE, and leaves the query state as it was. */
  function Update(s: State, values: Arr<Value>, outcome: WriteOutcome): (r: UpdateOutput)
    ensures r.stmt.None? <==> Php.IsEmpty(Str(s.table)) || Count(values) == 0
    ensures r.stmt.None? ==> r.result == False
    ensures r.stmt.Some? ==>
      r.stmt.value == Statement(UpdateSql(s.table, Columns(values), s.where), BindParams(UpdateBindings(values, s.bindings)))
    ensures r.result.Written? <==> r.stmt.Some? && outcome.Executed?
    ensures r.result.Written? ==> r.result.n == outcome.rowCount
  {
    if Php.IsEmpty(Str(s.table)) || Count(values) == 0 then UpdateOutput(None, False)
    else
      var stmt := Statement(UpdateSql(s.table, Columns(values), s.where), BindParams(UpdateBindings(values, s.bindings)));
      match outcome
      case Executed(n) => UpdateOutput(Some(stmt), Written(n))
      case WriteFailed => UpdateOutput(Some(stmt), False)
  }

  /** Every name the builder allocates starts with ":p". */
  lemma PlaceholderPrefix(name: string)
    requires PlaceholderIndex(name).Some?
    ensures |name| >= 2 && name[1] == 'p'
  {
    if |name| >= 4 && name[..3] == ":p_" {
      assert name[1] == name[..3][1];
    } else {
      assert name[1] == name[..2][1];
    }
  }

  lemma BindingsPrefix(b: Arr<Value>)
    requires BindingsInv(b)
    ensures forall j :: 0 <= j < |b.entries| && b.entries[j].0.StrKey? ==>
      |b.entries[j].0.s| >= 2 && b.entries[j].0.s[1] == 'p'
  {
    forall j | 0 <= j < |b.entries| && b.entries[j].0.StrKey?
      ensures |b.entries[j].0.s| >= 2 && b.entries[j].0.s[1] == 'p'
    {
      PlaceholderPrefix(b.entries[j].0.s);
    }
  }

  /** An update name differs from every builder placeholder at its second character. */
  lemma UpdateNamesDisjoint(u: seq<(Key, Value)>, b: Arr<Value>)
    requires Distinct(KeysOf(b.entries))
    requires forall j :: 0 <= j < |b.entries| && b.entries[j].0.StrKey? ==>
      |b.entries[j].0.s| >= 2 && b.entries[j].0.s[1] == 'p'
    requires forall i :: 0 <= i < |u| ==> u[i].0.StrKey? && |u[i].0.s| >= 2 && u[i].0.s[1] == 'u'
    requires Distinct(KeysOf(u))
    ensures Distinct(KeysOf(u + b.entries))
  {
    var q := u + b.entries;
    forall i, j | 0 <= i < j < |q|
      ensures KeysOf(q)[i] != KeysOf(q)[j]
    {
      UpdateNamesPair(u, b, i, j);
    }
  }

  lemma UpdateNamesPair(u: seq<(Key, Value)>, b: Arr<Value>, i: nat, j: nat)
    requires Distinct(KeysOf(b.entries))
    requires forall k :: 0 <= k < |b.entries| && b.entries[k].0.StrKey? ==>
      |b.entries[k].0.s| >= 2 && b.entries[k].0.s[1] == 'p'
    requires forall k :: 0 <= k < |u| ==> u[k].0.StrKey? && |u[k].0.s| >= 2 && u[k].0.s[1] == 'u'
    requires Distinct(KeysOf(u))
    requires i < j < |u| + |b.entries|
    ensures (u + b.entries)[i].0 != (u + b.entries)[j].0
  {
    var q := u + b.entries;
    var m := |u|;
    if i >= m {
      assert q[i] == b.entries[i - m] && q[j] == b.entries[j - m];
      assert KeysOf(b.entries)[i - m] == q[i].0 && KeysOf(b.entries)[j - m] == q[j].0;
    } else if j < m {
      assert q[i] == u[i] && q[j] == u[j];
      assert KeysOf(u)[i] == q[i].0 && KeysOf(u)[j] == q[j].0;
    } else {
      assert q[i] == u[i] && q[j] == b.entries[j - m];
    }
  }

  lemma UpdateBindingsAppend(values: Arr<Value>, b: Arr<Value>)
    requires Valid(values) && BindingsInv(b)
    ensures UpdateBindings(values, b).entries == PrefixedBindings(":u_", values).entries + b.entries
  {
    var u := PrefixedBindings(":u_", values);
    PrefixedBindingsInOrder(":u_", values);
    BindingsPrefix(b);
    UpdateNamesMarked(values, u.entries);
    UpdateNamesDisjoint(u.entries, b);
    MergeStringsFirst(u, b);
  }

  lemma UpdateNamesMarked(values: Arr<Value>, u: seq<(Key, Value)>)
    requires PrefixedOf(":u_", values, u)
    ensures forall i :: 0 <= i < |u| ==> u[i].0.StrKey? && |u[i].0.s| >= 2 && u[i].0.s[1] == 'u'
    ensures AllStrKeys(u)
  {
    forall i | 0 <= i < |u|
      ensures u[i].0.StrKey? && |u[i].0.s| >= 2 && u[i].0.s[1] == 'u'
    {
      assert u[i].0.s == ":u_" + KeyString(values.entries[i].0);
    }
  }

  /** `:u_` names never meet the builder's `:p` names: the update values are
      bound first, in column order, then every where binding unchanged. */
  lemma UpdateBindingsOrder(values: Arr<Value>, b: Arr<Value>)
    requires Valid(values) && BindingsInv(b)
    ensures var ps := BindParams(UpdateBindings(values, b));
      var m := Count(values);
      && |ps| == m + Count(b)
      && (forall i :: 0 <= i < m ==>
            ps[i].name == StrKey(UpdateName(KeyString(values.entries[i].0))) && ps[i].value == values.entries[i].1)
      && (forall i :: 0 <= i < Count(b) ==>
            ps[m + i].name == b.entries[i].0 && ps[m + i].value == b.entries[i].1)
  {
    var u := PrefixedBindings(":u_", values);
    assert UpdateBindings(values, b).entries == u.entries + b.entries by {
      UpdateBindingsAppend(values, b);
    }
    assert PrefixedOf(":u_", values, u.entries) by {
      PrefixedBindingsInOrder(":u_", values);
    }
    ParamsOfAppend(values, u, b, UpdateBindings(values, b));
  }

  /** The parameters of `u` followed by `b`, with `u` the prefixed `values`. */
  lemma ParamsOfAppend(values: Arr<Value>, u: Arr<Value>, b: Arr<Value>, all: Arr<Value>)
    requires all.entries == u.entries + b.entries && PrefixedOf(":u_", values, u.entries)
    ensures var ps := BindParams(all);
      var m := Count(values);
      && |ps| == m + Count(b)
      && (forall i :: 0 <= i < m ==>
            ps[i].name == StrKey(UpdateName(KeyString(values.entries[i].0))) && ps[i].value == values.entries[i].1)
      && (forall i :: 0 <= i < Count(b) ==>
            ps[m + i].name == b.entries[i].0 && ps[m + i].value == b.entries[i].1)
  {
    var m := Count(values);
    var ps := BindParams(all);
    forall i | 0 <= i < m
      ensures ps[i].name == StrKey(UpdateName(KeyString(values.entries[i].0))) && ps[i].value == values.entries[i].1
    {
      assert all.entries[i] == u.entries[i];
    }
    forall i | 0 <= i < Count(b)
      ensures ps[m + i].name == b.entries[i].0 && ps[m + i].value == b.entries[i].1
    {
      assert all.entries[m + i] == b.entries[i];
    }
  }

  datatype DeleteOutput = DeleteOutput(state: State, stmt: Statement, result: WriteResult)

  /** `delete()`: throws without a table or without a where-string; after
      executing, success or not, the query state is reset. */
  function Delete(s: State, outcome: WriteOutcome): (r: Result<DeleteOutput>)
    ensures r.Err? <==> Php.IsEmpty(Str(s.table)) || Php.IsEmpty(Str(s.where))
    ensures Php.IsEmpty(Str(s.table)) ==> r == Err(DeleteWithoutTable)
    ensures !Php.IsEmpty(Str(s.table)) && Php.IsEmpty(Str(s.where)) ==> r == Err(DeleteWithoutWhere)
    ensures r.Ok? ==> r.value.state == ResetState(s)
    ensures r.Ok? ==> r.value.stmt == Statement("DELETE FROM " + s.table + " " + s.where, BindParams(s.bindings))
    ensures r.Ok? ==> (r.value.result.Written? <==> outcome.Executed?)
    ensures r.Ok? && r.value.result.Written? ==> r.value.result.n == outcome.rowCount
  {
    if Php.IsEmpty(Str(s.table)) then Err(DeleteWithoutTable)
    else if Php.IsEmpty(Str(s.where)) then Err(DeleteWithoutWhere)
    else
      var stmt := Statement("DELETE FROM " + s.table + " " + s.where, BindParams(s.bindings));
      match outcome
      case Executed(n) => Ok(DeleteOutput(ResetState(s), stmt, Written(n)))
      case WriteFailed => Ok(DeleteOutput(ResetState(s), stmt, False))
  }
}
