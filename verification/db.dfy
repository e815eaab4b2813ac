/** `DB`: the static facade in front of the builder.

    The facade's two static properties, the booted connection and the last
    builder it handed out, form the `Facade` record. A static call names one
    builder method. `__callStatic` builds a brand-new builder from the booted
    connection and invokes that method on it; the rest of the chain then runs
    on the returned builder. Method names are the `Call` datatype, so the
    dispatch `$instance->$method(...)` becomes `Apply`. A name the builder
    does not have is `Undefined`, and PHP raises an error for it. */
module DB {
  import opened Wrappers
  import opened Php
  import opened Arrays
  import opened QueryBuilder

  /** `protected static $connection` and `protected static $instance`. */
  datatype Facade = Facade(connection: Option<Connection>, instance: Option<State>)

  /** Before `boot`, both properties are null. */
  const Unbooted: Facade := Facade(None, None)

  /** The chainable builder methods reachable by name. */
  datatype Call =
    | TableCall(name: string)
    | SelectCall(columns: seq<string>)
    | InnerJoinCall(joined: string, on: string)
    | LeftJoinCall(joined: string, on: string)
    | DebugCall(enable: bool)
    | SetModelCall(cls: string)
    | WhereCall(col: string, op: string, value: Operand)
    | OrWhereCall(col: string, op: string, value: Operand)
    | WhereNotCall(col: string, op: string, value: Operand)
    | OrWhereNotCall(col: string, op: string, value: Operand)
    | WhereInCall(col: string, values: Operand)
    | OrWhereInCall(col: string, list: seq<Value>)
    | WhereNotInCall(col: string, list: seq<Value>)
    | OrWhereNotInCall(col: string, list: seq<Value>)
    | WhereRawCall(raw: string)
    | OrWhereRawCall(raw: string)
    | WhereBetweenCall(col: string, list: seq<Value>)
    | OrderByCall(column: string, direction: string)
    | GroupByCall(columns: seq<string>)
    | LimitCall(n: int)
    | OffsetCall(n: int)
    | Undefined(name: string)

  /** The calls that validate an operator. */
  predicate ChecksOperator(c: Call) {
    c.WhereCall? || c.OrWhereCall? || c.WhereNotCall? || c.OrWhereNotCall?
  }

  /** When a call returns the builder instead of throwing. */
  predicate Accepted(c: Call) {
    !c.Undefined? && (ChecksOperator(c) ==> NormalizeOperator(c.op) in AuthorizedOperators)
  }

  /** The connective and negation of the four operator-checking calls. */
  function Connector(c: Call): Connective {
    if c.OrWhereCall? || c.OrWhereNotCall? then Or else And
  }

  function Negated(c: Call): bool {
    c.WhereNotCall? || c.OrWhereNotCall?
  }

  /** The `whereIn` family. */
  predicate InListCall(c: Call) {
    c.WhereInCall? || c.OrWhereInCall? || c.WhereNotInCall? || c.OrWhereNotInCall?
  }

  /** The calls that cannot throw, each on the builder method of its name. */
  function Step(s: State, c: Call): State
    requires !c.Undefined? && !ChecksOperator(c)
  {
    if InListCall(c) then InListStep(s, c)
    else if Corrected(c) then RawOrBetweenStep(s, c)
    else SetterStep(s, c)
  }

  function InListStep(s: State, c: Call): State
    requires InListCall(c)
  {
    match c
    case WhereInCall(col, values) => WhereIn(s, col, values).value
    case OrWhereInCall(col, list) => OrWhereIn(s, col, list).value
    case WhereNotInCall(col, list) => WhereNotIn(s, col, list).value
    case OrWhereNotInCall(col, list) => OrWhereNotIn(s, col, list).value
  }

  function RawOrBetweenStep(s: State, c: Call): State
    requires Corrected(c)
  {
    match c
    case WhereRawCall(raw) => WhereRaw(s, raw)
    case OrWhereRawCall(raw) => OrWhereRaw(s, raw)
    case WhereBetweenCall(col, list) => WhereBetween(s, col, list)
  }

  function SetterStep(s: State, c: Call): State
    requires !c.Undefined? && !ChecksOperator(c) && !InListCall(c) && !Corrected(c)
  {
    match c
    case TableCall(name) => Table(s, name)
    case SelectCall(columns) => Select(s, columns)
    case InnerJoinCall(joined, on) => InnerJoin(s, joined, on)
    case LeftJoinCall(joined, on) => LeftJoin(s, joined, on)
    case DebugCall(enable) => Debug(s, enable)
    case SetModelCall(cls) => SetModel(s, cls)
    case OrderByCall(column, direction) => OrderBy(s, column, direction)
    case GroupByCall(columns) => GroupBy(s, columns)
    case LimitCall(n) => Limit(s, n)
    case OffsetCall(n) => Offset(s, n)
  }

  /** `$instance->$method(...$parameters)`: an unknown name throws, the four
      `where`/`orWhere`/`whereNot`/`orWhereNot` calls throw on an operator
      outside the allow-list, and every other call returns the builder. */
  function Apply(s: State, c: Call): (r: Result<State>)
    ensures r.Ok? <==> Accepted(c)
    ensures c.Undefined? ==> r == Err(UndefinedMethod(c.name))
    ensures ChecksOperator(c) && r.Err? ==> r == Err(InvalidOperator(c.op))
  {
    if c.Undefined? then Err(UndefinedMethod(c.name))
    else if ChecksOperator(c) then AddCondition(s, c.col, c.op, c.value, Connector(c), Negated(c))
    else Ok(Step(s, c))
  }

  /** The dispatch reaches the builder method of the same name, with the same
      arguments: the condition calls. */
  lemma ApplyConditionCalls(s: State, c: Call)
    ensures c.WhereCall? ==> Apply(s, c) == Where(s, c.col, c.op, c.value)
    ensures c.OrWhereCall? ==> Apply(s, c) == OrWhere(s, c.col, c.op, c.value)
    ensures c.WhereNotCall? ==> Apply(s, c) == WhereNot(s, c.col, c.op, c.value)
    ensures c.OrWhereNotCall? ==> Apply(s, c) == OrWhereNot(s, c.col, c.op, c.value)
  {
  }

  /** ... the list conditions ... */
  lemma ApplyListCalls(s: State, c: Call)
    ensures c.WhereInCall? ==> Apply(s, c) == WhereIn(s, c.col, c.values)
    ensures c.OrWhereInCall? ==> Apply(s, c) == OrWhereIn(s, c.col, c.list)
    ensures c.WhereNotInCall? ==> Apply(s, c) == WhereNotIn(s, c.col, c.list)
    ensures c.OrWhereNotInCall? ==> Apply(s, c) == OrWhereNotIn(s, c.col, c.list)
  {
    if InListCall(c) {
      assert Apply(s, c) == Ok(InListStep(s, c));
    }
  }

  /** ... the raw conditions and `whereBetween` ... */
  lemma ApplyRawCalls(s: State, c: Call)
    ensures c.WhereRawCall? ==> Apply(s, c) == Ok(WhereRaw(s, c.raw))
    ensures c.OrWhereRawCall? ==> Apply(s, c) == Ok(OrWhereRaw(s, c.raw))
    ensures c.WhereBetweenCall? ==> Apply(s, c) == Ok(WhereBetween(s, c.col, c.list))
  {
    if Corrected(c) {
      assert Apply(s, c) == Ok(RawOrBetweenStep(s, c));
    }
  }

  /** ... and the setters. */
  lemma ApplySetterCalls(s: State, c: Call)
    ensures c.TableCall? ==> Apply(s, c) == Ok(Table(s, c.name))
    ensures c.SelectCall? ==> Apply(s, c) == Ok(Select(s, c.columns))
    ensures c.InnerJoinCall? ==> Apply(s, c) == Ok(InnerJoin(s, c.joined, c.on))
    ensures c.LeftJoinCall? ==> Apply(s, c) == Ok(LeftJoin(s, c.joined, c.on))
    ensures c.DebugCall? ==> Apply(s, c) == Ok(Debug(s, c.enable))
    ensures c.SetModelCall? ==> Apply(s, c) == Ok(SetModel(s, c.cls))
    ensures c.OrderByCall? ==> Apply(s, c) == Ok(OrderBy(s, c.column, c.direction))
    ensures c.GroupByCall? ==> Apply(s, c) == Ok(GroupBy(s, c.columns))
    ensures c.LimitCall? ==> Apply(s, c) == Ok(Limit(s, c.n))
    ensures c.OffsetCall? ==> Apply(s, c) == Ok(Offset(s, c.n))
  {
    if !c.Undefined? && !ChecksOperator(c) && !InListCall(c) && !Corrected(c) {
      assert Apply(s, c) == Ok(SetterStep(s, c));
    }
  }

  /** `->m1(...)->m2(...)...` on one builder: the first throw ends the chain. */
  function Chain(s: State, calls: seq<Call>): (r: Result<State>)
    decreases |calls|
  {
    if calls == [] then Ok(s)
    else
      match Apply(s, calls[0])
      case Err(e) => Err(e)
      case Ok(s1) => Chain(s1, calls[1..])
  }

  /** What the builder state must satisfy for its SQL and bindings to agree:
      the placeholder invariant, a where-string that is empty or opens with
      WHERE, and named bindings only (the SQL names every placeholder it
      uses, so a positional entry stands where one of those names is left
      unbound). */
  predicate WellFormed(s: State) {
    Named(s.bindings) && WhereShape(s.where)
  }

  /** Bindings under placeholder names only, each numbered below the count. */
  predicate Named(b: Arr<Value>) {
    Valid(b) && b.next == 0 && AllStrKeys(b.entries) && NamesBelowCount(b)
  }

  /** Named bindings satisfy the builder's invariant ... */
  lemma NamedInv(b: Arr<Value>)
    requires Named(b)
    ensures BindingsInv(b)
  {
    IntCountStrings([], b.entries);
    assert [] + b.entries == b.entries;
  }

  /** ... and an invariant array without positional entries is named. */
  lemma InvNamed(b: Arr<Value>)
    requires BindingsInv(b) && AllStrKeys(b.entries)
    ensures Named(b)
  {
    IntCountStrings([], b.entries);
    assert [] + b.entries == b.entries;
  }

  /** The calls that keep a well-formed builder well-formed: all but the
      written `whereBetween`, and the raw calls once some condition exists. */
  predicate Preserves(s: State, c: Call) {
    !c.WhereBetweenCall? && ((c.WhereRawCall? || c.OrWhereRawCall?) ==> s.where != "")
  }

  lemma WhereShapeBetween(w: string, col: string, n: nat)
    requires WhereShape(w)
    ensures WhereShape(BetweenClause(w, col, n))
  {
    var clause := BetweenBody(col, n);
    if w == "" {
      assert BetweenClause(w, col, n) == " WHERE " + clause;
    } else {
      assert BetweenClause(w, col, n) == w + (" AND " + clause);
      StartsWithExtend(w, " AND " + clause, " WHERE ");
    }
  }

  /** Each accepted call that `Preserves` allows keeps the builder well-formed. */
  lemma ApplyWellFormed(s: State, c: Call)
    requires WellFormed(s)
    requires Apply(s, c).Ok? && Preserves(s, c)
    ensures WellFormed(Apply(s, c).value)
  {
    if ChecksOperator(c) {
      ConditionWellFormed(s, c.col, c.op, c.value, Connector(c), Negated(c));
    } else {
      StepWellFormed(s, c);
    }
  }

  /** The other accepted calls break it: the written `whereBetween` adds
      positional entries, and a raw call on a builder without conditions
      writes a where-string that does not open with WHERE. */
  lemma ApplyBreaks(s: State, c: Call)
    requires WellFormed(s)
    requires !c.Undefined? && !Preserves(s, c)
    ensures Apply(s, c).Ok? && !WellFormed(Apply(s, c).value)
  {
    ApplyRawCalls(s, c);
    if c.WhereBetweenCall? {
      assert !AllStrKeys(WhereBetween(s, c.col, c.list).bindings.entries) by {
        NamedInv(s.bindings);
        BetweenAddsPositional(s, c.col, c.list);
      }
    } else {
      WhereRawFirstBreaksShape(s, c.raw);
    }
  }

  /** The written `whereBetween` leaves a positional entry in the bindings. */
  lemma BetweenAddsPositional(s: State, col: string, list: seq<Value>)
    requires BindingsInv(s.bindings)
    ensures !AllStrKeys(WhereBetween(s, col, list).bindings.entries)
  {
    var b := s.bindings;
    PositionalPairEntries(b, ValueAt(list, 0), ValueAt(list, 1));
    var es := WhereBetween(s, col, list).bindings.entries;
    assert KeysOf(es)[|b.entries|] == IntKey(b.next);
  }

  /** A condition whose operator passes the check keeps the builder well-formed. */
  lemma ConditionWellFormed(s: State, col: string, op: string, value: Operand, conn: Connective, negate: bool)
    requires WellFormed(s)
    requires AddCondition(s, col, op, value, conn, negate).Ok?
    ensures WellFormed(AddCondition(s, col, op, value, conn, negate).value)
  {
    AddConditionNamed(s, col, op, value, conn, negate);
    AddConditionShape(s, col, op, value, conn, negate);
  }

  /** The same, stated for an operator already known to pass the allow-list. */
  lemma AcceptedWellFormed(s: State, col: string, op: string, normalized: string, value: Operand, conn: Connective, negate: bool)
    requires WellFormed(s)
    requires ValidateOperator(op) == Ok(normalized)
    ensures WellFormed(Condition(s, col, op, normalized, value, conn, negate))
  {
    AcceptedCondition(s, col, op, normalized, value, conn, negate);
    ConditionWellFormed(s, col, op, value, conn, negate);
  }

  /** An accepted condition appends named entries only and keeps the invariant. */
  lemma AddConditionNamed(s: State, col: string, op: string, value: Operand, conn: Connective, negate: bool)
    requires Named(s.bindings)
    requires AddCondition(s, col, op, value, conn, negate).Ok?
    ensures Named(AddCondition(s, col, op, value, conn, negate).value.bindings)
  {
    var normalized := NormalizeOperator(op);
    var names := Placeholders(normalized, value, Count(s.bindings));
    var vals := PlaceholderValues(normalized, value);
    var r := AddCondition(s, col, op, value, conn, negate).value.bindings;
    assert |names| == |vals| && BindingsInv(r) && r.entries == s.bindings.entries + NewEntries(names, vals) by {
      NamedInv(s.bindings);
      AddConditionBindings(s, col, op, value, conn, negate);
    }
    assert AllStrKeys(r.entries) by {
      AllStrKeysAppend(s.bindings.entries, NewEntries(names, vals));
    }
    InvNamed(r);
  }

  lemma StepWellFormed(s: State, c: Call)
    requires WellFormed(s)
    requires !c.Undefined? && !ChecksOperator(c) && Preserves(s, c)
    ensures WellFormed(Step(s, c))
  {
    match c
    case WhereInCall(col, values) => WhereInStep(s, col, values);
    case OrWhereInCall(col, list) => OrWhereInStep(s, col, list);
    case WhereNotInCall(col, list) => WhereNotInStep(s, col, list);
    case OrWhereNotInCall(col, list) => OrWhereNotInStep(s, col, list);
    case WhereRawCall(_) => RawStepWellFormed(s, c);
    case OrWhereRawCall(_) => RawStepWellFormed(s, c);
    case _ => SetterKeepsWhere(s, c);
  }

  lemma WhereInStep(s: State, col: string, values: Operand)
    requires WellFormed(s)
    ensures WellFormed(Step(s, WhereInCall(col, values)))
  {
    WhereInIsCondition(s, col, values);
    assert ValidateOperator("IN") == Ok("IN") by {
      FixedOperatorsAccepted();
    }
    AcceptedWellFormed(s, col, "IN", "IN", values, And, false);
  }

  lemma OrWhereInStep(s: State, col: string, list: seq<Value>)
    requires WellFormed(s)
    ensures WellFormed(Step(s, OrWhereInCall(col, list)))
  {
    OrWhereInIsCondition(s, col, list);
    assert ValidateOperator("IN") == Ok("IN") by {
      FixedOperatorsAccepted();
    }
    AcceptedWellFormed(s, col, "IN", "IN", List(list), Or, false);
  }

  lemma WhereNotInStep(s: State, col: string, list: seq<Value>)
    requires WellFormed(s)
    ensures WellFormed(Step(s, WhereNotInCall(col, list)))
  {
    WhereNotInIsCondition(s, col, list);
    assert ValidateOperator("NOT IN") == Ok("NOT IN") by {
      FixedOperatorsAccepted();
    }
    AcceptedWellFormed(s, col, "NOT IN", "NOT IN", List(list), And, false);
  }

  lemma OrWhereNotInStep(s: State, col: string, list: seq<Value>)
    requires WellFormed(s)
    ensures WellFormed(Step(s, OrWhereNotInCall(col, list)))
  {
    OrWhereNotInIsCondition(s, col, list);
    assert ValidateOperator("NOT IN") == Ok("NOT IN") by {
      FixedOperatorsAccepted();
    }
    AcceptedWellFormed(s, col, "NOT IN", "NOT IN", List(list), Or, false);
  }

  /** The facade's four list calls each add the builder's condition. */
  lemma WhereInIsCondition(s: State, col: string, values: Operand)
    ensures Step(s, WhereInCall(col, values)) == Condition(s, col, "IN", "IN", values, And, false)
  {
    assert Step(s, WhereInCall(col, values)) == WhereIn(s, col, values).value;
  }

  lemma OrWhereInIsCondition(s: State, col: string, list: seq<Value>)
    ensures Step(s, OrWhereInCall(col, list)) == Condition(s, col, "IN", "IN", List(list), Or, false)
  {
    assert Step(s, OrWhereInCall(col, list)) == OrWhereIn(s, col, list).value;
  }

  lemma WhereNotInIsCondition(s: State, col: string, list: seq<Value>)
    ensures Step(s, WhereNotInCall(col, list)) == Condition(s, col, "NOT IN", "NOT IN", List(list), And, false)
  {
    assert Step(s, WhereNotInCall(col, list)) == WhereNotIn(s, col, list).value;
  }

  lemma OrWhereNotInIsCondition(s: State, col: string, list: seq<Value>)
    ensures Step(s, OrWhereNotInCall(col, list)) == Condition(s, col, "NOT IN", "NOT IN", List(list), Or, false)
  {
    assert Step(s, OrWhereNotInCall(col, list)) == OrWhereNotIn(s, col, list).value;
  }

  /** A raw call after the first condition extends a WHERE-led string. */
  lemma RawStepWellFormed(s: State, c: Call)
    requires WellFormed(s) && s.where != ""
    requires c.WhereRawCall? || c.OrWhereRawCall?
    ensures WellFormed(Step(s, c))
  {
    var more := if c.WhereRawCall? then " AND " + c.raw + " " else " OR " + c.raw + " ";
    assert Step(s, c).where == s.where + more;
    assert Step(s, c).bindings == s.bindings;
    StartsWithExtend(s.where, more, " WHERE ");
  }

  /** The calls that add no condition leave the bindings and the where-string alone. */
  lemma SetterKeepsWhere(s: State, c: Call)
    requires !c.Undefined? && !ChecksOperator(c)
    requires !c.WhereInCall? && !c.OrWhereInCall? && !c.WhereNotInCall? && !c.OrWhereNotInCall?
    requires !c.WhereRawCall? && !c.OrWhereRawCall? && !c.WhereBetweenCall?
    ensures Step(s, c).bindings == s.bindings && Step(s, c).where == s.where
  {
  }

  /** A chain every call of which `Preserves` allows, on the state it meets. */
  predicate SafeChain(s: State, calls: seq<Call>)
    decreases |calls|
  {
    calls == [] ||
    (Preserves(s, calls[0]) && (Apply(s, calls[0]).Ok? ==> SafeChain(Apply(s, calls[0]).value, calls[1..])))
  }

  /** However long the chain, a builder that starts well-formed ends
      well-formed when no call of the chain breaks it. */
  lemma {:induction false} ChainWellFormed(s: State, calls: seq<Call>)
    requires WellFormed(s) && SafeChain(s, calls)
    requires Chain(s, calls).Ok?
    ensures WellFormed(Chain(s, calls).value)
    decreases |calls|
  {
    if calls != [] {
      ApplyWellFormed(s, calls[0]);
      ChainWellFormed(Apply(s, calls[0]).value, calls[1..]);
    }
  }

  // ------------------------------------------------------------ the corrected calls

  /** The three calls the written builder gets wrong. */
  predicate Corrected(c: Call) {
    c.WhereRawCall? || c.OrWhereRawCall? || c.WhereBetweenCall?
  }

  /** The dispatch with `whereRaw`, `orWhereRaw` and `whereBetween` in their
      corrected forms. It differs from `Apply` only where the bugs bite: a raw
      call on a builder without conditions, and the between bindings. */
  function ApplyFixed(s: State, c: Call): (r: Result<State>)
    ensures r.Ok? <==> Accepted(c)
    ensures !Corrected(c) ==> r == Apply(s, c)
  {
    if Corrected(c) then Ok(FixedStep(s, c)) else Apply(s, c)
  }

  function FixedStep(s: State, c: Call): State
    requires Corrected(c)
  {
    match c
    case WhereRawCall(raw) => WhereRawFixed(s, raw)
    case OrWhereRawCall(raw) => OrWhereRawFixed(s, raw)
    case WhereBetweenCall(col, list) => WhereBetweenNamed(s, col, list)
  }

  /** Where the written code is right the corrected dispatch agrees with it: a
      raw call once a condition exists, and the SQL text of `whereBetween`. */
  lemma ApplyFixedAgrees(s: State, c: Call)
    ensures (c.WhereRawCall? || c.OrWhereRawCall?) && s.where != "" ==> ApplyFixed(s, c) == Apply(s, c)
    ensures c.WhereBetweenCall? ==> ApplyFixed(s, c).value.where == Apply(s, c).value.where
  {
    if (c.WhereRawCall? || c.OrWhereRawCall?) && s.where != "" {
      RawFixedAgrees(s, c.raw);
      ApplyRawCalls(s, c);
    } else if c.WhereBetweenCall? {
      ApplyRawCalls(s, c);
    }
  }

  function ChainFixed(s: State, calls: seq<Call>): (r: Result<State>)
    decreases |calls|
  {
    if calls == [] then Ok(s)
    else
      match ApplyFixed(s, calls[0])
      case Err(e) => Err(e)
      case Ok(s1) => ChainFixed(s1, calls[1..])
  }

  /** With the corrections every accepted call keeps the builder well-formed. */
  lemma ApplyFixedWellFormed(s: State, c: Call)
    requires WellFormed(s)
    requires ApplyFixed(s, c).Ok?
    ensures WellFormed(ApplyFixed(s, c).value)
  {
    if c.WhereRawCall? {
      assert ApplyFixed(s, c).value == WhereRawFixed(s, c.raw);
    } else if c.OrWhereRawCall? {
      assert ApplyFixed(s, c).value == OrWhereRawFixed(s, c.raw);
    } else if c.WhereBetweenCall? {
      BetweenFixedWellFormed(s, c.col, c.list);
    } else {
      ApplyWellFormed(s, c);
    }
  }

  lemma BetweenFixedWellFormed(s: State, col: string, list: seq<Value>)
    requires WellFormed(s)
    ensures WellFormed(WhereBetweenNamed(s, col, list))
  {
    NamedPairNamed(s.bindings, ValueAt(list, 0), ValueAt(list, 1));
    WhereShapeBetween(s.where, col, Count(s.bindings));
  }

  lemma NamedPairNamed(b: Arr<Value>, low: Value, high: Value)
    requires Named(b)
    ensures Named(NamedPair(b, low, high))
  {
    NamedInv(b);
    NamedPairBinds(b, low, high);
    NamedPairStrKeys(b, low, high);
    InvNamed(NamedPair(b, low, high));
  }

  /** Every corrected chain keeps a well-formed builder well-formed. */
  lemma {:induction false} ChainFixedWellFormed(s: State, calls: seq<Call>)
    requires WellFormed(s)
    requires ChainFixed(s, calls).Ok?
    ensures WellFormed(ChainFixed(s, calls).value)
    decreases |calls|
  {
    if calls != [] {
      ApplyFixedWellFormed(s, calls[0]);
      ChainFixedWellFormed(ApplyFixed(s, calls[0]).value, calls[1..]);
    }
  }

  /** A chain throws exactly when one of its calls is not accepted; the error
      is the first such call's. */
  lemma {:induction false} ChainThrowsAtFirstRejected(s: State, calls: seq<Call>)
    ensures Chain(s, calls).Err? <==> exists i :: 0 <= i < |calls| && !Accepted(calls[i])
    decreases |calls|
  {
    if calls != [] {
      if Accepted(calls[0]) {
        ChainThrowsAtFirstRejected(Apply(s, calls[0]).value, calls[1..]);
        if exists i :: 0 <= i < |calls| && !Accepted(calls[i]) {
          var i :| 0 <= i < |calls| && !Accepted(calls[i]);
          assert i > 0 && !Accepted(calls[1..][i - 1]);
        }
        if exists j :: 0 <= j < |calls[1..]| && !Accepted(calls[1..][j]) {
          var j :| 0 <= j < |calls[1..]| && !Accepted(calls[1..][j]);
          assert !Accepted(calls[j + 1]);
        }
      }
    }
  }

  // ------------------------------------------------------------ the facade

  /** `boot($pdo)`: stores the connection, replacing any earlier one. */
  function Boot(f: Facade, pdo: Connection): (r: Facade)
    ensures GetConnection(r) == Ok(pdo)
    ensures r.instance == f.instance
  {
    f.(connection := Some(pdo))
  }

  /** `getConnection()`: throws until a connection has been booted. */
  function GetConnection(f: Facade): (r: Result<Connection>)
    ensures r.Ok? <==> f.connection.Some?
    ensures r.Err? ==> r.thrown == ConnectionNotInitialized
    ensures r.Ok? ==> Some(r.value) == f.connection
  {
    match f.connection
    case None => Err(ConnectionNotInitialized)
    case Some(pdo) => Ok(pdo)
  }

  /** A second `boot` wins: the first connection is forgotten. */
  lemma BootOverwrites(f: Facade, first: Connection, second: Connection)
    ensures Boot(Boot(f, first), second) == Boot(f, second)
    ensures GetConnection(Boot(Boot(f, first), second)) == Ok(second)
  {
  }

  /** `getQueryBuilderInstance()`: a new builder in its default state,
      remembered as the facade's instance; throws before `boot`. */
  function GetQueryBuilderInstance(f: Facade): (r: Result<(Facade, State)>)
    ensures r.Ok? <==> f.connection.Some?
    ensures r.Err? ==> r.thrown == ConnectionNotInitialized
    ensures r.Ok? ==> r.value.1 == Initial(f.connection.value)
    ensures r.Ok? ==> r.value.0 == f.(instance := Some(r.value.1))
  {
    var pdo :- GetConnection(f);
    var s := Initial(pdo);
    Ok((f.(instance := Some(s)), s))
  }

  /** `DB::method(...$parameters)`: the new builder runs the call, and the
      stored instance is that same object afterwards (left at its defaults
      when the call throws). */
  function CallStatic(f: Facade, c: Call): (r: (Facade, Result<State>))
    ensures f.connection.None? ==> r == (f, Err(ConnectionNotInitialized))
    ensures f.connection.Some? ==> r.1 == Apply(Initial(f.connection.value), c)
    ensures r.0.connection == f.connection
    ensures f.connection.Some? && r.1.Ok? ==> r.0.instance == Some(r.1.value)
    ensures f.connection.Some? && r.1.Err? ==> r.0.instance == Some(Initial(f.connection.value))
  {
    match GetQueryBuilderInstance(f)
    case Err(e) => (f, Err(e))
    case Ok((f1, s)) =>
      match Apply(s, c)
      case Ok(s1) => (f1.(instance := Some(s1)), Ok(s1))
      case Err(e) => (f1, Err(e))
  }

  /** `DB::first(...)->rest...`: a static call followed by a chain on the
      builder it returned. */
  function Run(f: Facade, first: Call, rest: seq<Call>): (r: Result<State>)
    ensures f.connection.Some? ==> r == Chain(Initial(f.connection.value), [first] + rest)
    ensures f.connection.None? ==> r == Err(ConnectionNotInitialized)
  {
    var (_, s) := CallStatic(f, first);
    match s
    case Err(e) => Err(e)
    case Ok(s1) => Chain(s1, rest)
  }

  /** No state carries between chains: whatever ran before, a static call
      sees only the booted connection. */
  lemma CallStaticForgetsHistory(f: Facade, earlier: Call, c: Call)
    ensures CallStatic(CallStatic(f, earlier).0, c).1 == CallStatic(f, c).1
  {
  }

  /** A run of static calls, one after another, on the facade. */
  function Session(f: Facade, calls: seq<Call>): Facade
    decreases |calls|
  {
    if calls == [] then f else Session(CallStatic(f, calls[0]).0, calls[1..])
  }

  /** The facade's connection survives any number of static calls. */
  lemma {:induction false} SessionKeepsConnection(f: Facade, calls: seq<Call>)
    ensures Session(f, calls).connection == f.connection
    decreases |calls|
  {
    if calls != [] {
      SessionKeepsConnection(CallStatic(f, calls[0]).0, calls[1..]);
    }
  }

  /** A static call after any history answers exactly as on the freshly
      booted facade. */
  lemma SessionForgetsHistory(f: Facade, earlier: seq<Call>, c: Call)
    ensures CallStatic(Session(f, earlier), c).1 == CallStatic(f, c).1
  {
    SessionKeepsConnection(f, earlier);
  }

  /** Every chain the facade starts yields a well-formed builder, as long as
      no call of it breaks the builder. */
  lemma RunWellFormed(f: Facade, first: Call, rest: seq<Call>)
    requires f.connection.Some? && SafeChain(Initial(f.connection.value), [first] + rest)
    requires Run(f, first, rest).Ok?
    ensures WellFormed(Run(f, first, rest).value)
  {
    var s := Initial(f.connection.value);
    assert WellFormed(s);
    ChainWellFormed(s, [first] + rest);
  }

  /** `DB::whereRaw($raw)` on the booted facade: the where-string opens with
      AND, so the SQL cannot parse. The same holds for `orWhereRaw`. */
  lemma RunRawFirstBreaks(f: Facade, raw: string)
    requires f.connection.Some?
    ensures Run(f, WhereRawCall(raw), []).Ok? && !WhereShape(Run(f, WhereRawCall(raw), []).value.where)
    ensures Run(f, OrWhereRawCall(raw), []).Ok? && !WhereShape(Run(f, OrWhereRawCall(raw), []).value.where)
  {
    var s := Initial(f.connection.value);
    WhereRawFirstBreaksShape(s, raw);
    assert Chain(s, [WhereRawCall(raw)]) == Ok(WhereRaw(s, raw));
    assert Chain(s, [OrWhereRawCall(raw)]) == Ok(OrWhereRaw(s, raw));
  }

  /** `DB::whereBetween($col, $values)` on the booted facade: the SQL names
      `:p0` and `:p1`, and neither is bound. */
  lemma RunBetweenUnbound(f: Facade, col: string, list: seq<Value>)
    requires f.connection.Some?
    ensures var r := Run(f, WhereBetweenCall(col, list), []);
      && r.Ok?
      && r.value.where == " WHERE (" + col + " BETWEEN :p0 AND :p1)"
      && Get(r.value.bindings, StrKey(":p0")).None? && Get(r.value.bindings, StrKey(":p1")).None?
  {
    var s := Initial(f.connection.value);
    assert Run(f, WhereBetweenCall(col, list), []) == Ok(WhereBetween(s, col, list)) by {
      SingleCall(s, WhereBetweenCall(col, list));
      ApplyRawCalls(s, WhereBetweenCall(col, list));
    }
    WhereBetweenNamesUnbound(s, col, list);
    FirstNames();
    BetweenFirstText(col);
  }

  /** A chain of one call is that call. */
  lemma SingleCall(s: State, c: Call)
    ensures Chain(s, [c]) == Apply(s, c)
  {
    assert [c][1..] == [];
  }

  lemma BetweenFirstText(col: string)
    ensures BetweenClause("", col, 0) == " WHERE (" + col + " BETWEEN :p0 AND :p1)"
  {
    FirstNames();
    assert BetweenClause("", col, 0) == " WHERE " + "(" + col + " BETWEEN " + ":p0" + " AND " + ":p1" + ")";
  }

  /** With the corrections, every chain the facade starts is well-formed. */
  lemma RunFixedWellFormed(c: Connection, calls: seq<Call>)
    requires ChainFixed(Initial(c), calls).Ok?
    ensures WellFormed(ChainFixed(Initial(c), calls).value)
  {
    assert WellFormed(Initial(c));
    ChainFixedWellFormed(Initial(c), calls);
  }
}
