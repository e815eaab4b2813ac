/** `Validator`: rule strings such as `"required|text|max:255"` checked
    against an input array.

    Rules run in order. Each failed rule appends one message to
    `errors[field]`. The error map is never cleared, so one validator
    instance remembers every failure it has seen. What PHP's library decides
    (`is_numeric`, `filter_var(..., FILTER_VALIDATE_EMAIL)`, the `DateTime`
    format round trip, and the text of a float) is the `Library` argument. */
module Validation {
  import opened Wrappers
  import opened Php
  import opened Arrays

  /** The library predicates the rules call. */
  datatype Library = Library(
    isNumeric: Value -> bool,
    isEmail: Value -> bool,
    matchesFormat: (Value, string) -> bool,
    floatText: real -> string)

  /** `protected array $errors`: field => list of messages. */
  datatype Validator = Validator(errors: Arr<seq<string>>)

  /** `new Validator()`. */
  function NewValidator(): (v: Validator)
    ensures Valid(v.errors) && Count(v.errors) == 0
  {
    Validator(Empty())
  }

  /** `(string) $value`. */
  function StringCast(v: Value, lib: Library): string {
    match v
    case Null => ""
    case Bool(b) => if b then "1" else ""
    case Int(i) => IntToString(i)
    case Float(f) => lib.floatText(f)
    case Str(s) => s
  }

  /** `in_array($value, [true, false, 1, 0, '1', '0', 'true', 'false'], true)`. */
  predicate StrictBoolean(v: Value) {
    v in [Bool(true), Bool(false), Int(1), Int(0), Str("1"), Str("0"), Str("true"), Str("false")]
  }

  // ------------------------------------------------------------ messages

  function TextMessage(f: string): string { "Le champ " + f + " doit être du texte." }
  function NumberMessage(f: string): string { "Le champ " + f + " doit être un nombre." }
  function DateMessage(f: string): string { "Le champ " + f + " doit être une date au format AAAA-MM-JJ (ex: 2026-01-26)." }
  function TimestampMessage(f: string): string { "Le champ " + f + " doit être un timestamp au format AAAA-MM-JJ HH:MM:SS." }
  function RequiredMessage(f: string): string { "Le champ " + f + " est obligatoire." }
  const EmailMessage: string := "Le format de l'email est invalide."
  function BooleanMessage(f: string): string { "Le champ " + f + " doit être un booléen." }

  function MinMessage(f: string, n: int, numeric: bool): string {
    "Le champ " + f + " "
      + (if numeric then "doit être au moins " + IntToString(n) + " caractères."
         else "doit contenir au moins " + IntToString(n) + " caractères.")
  }

  function MaxMessage(f: string, n: int): string {
    "Le champ " + f + " " + "ne doit pas dépasser " + IntToString(n) + " caractères."
  }

  // ------------------------------------------------------------ one rule

  /** The `switch ($rule)` part; every label is free of ':'. */
  function SwitchError(f: string, value: Value, rule: string, lib: Library): Option<string> {
    if rule == "text" then (if !value.Str? then Some(TextMessage(f)) else None)
    else if rule == "number" then (if !lib.isNumeric(value) then Some(NumberMessage(f)) else None)
    else if rule == "date" then (if !lib.matchesFormat(value, "Y-m-d") then Some(DateMessage(f)) else None)
    else if rule == "timestamp" then (if !lib.matchesFormat(value, "Y-m-d H:i:s") then Some(TimestampMessage(f)) else None)
    else if rule == "required" then (if IsEmpty(value) then Some(RequiredMessage(f)) else None)
    else if rule == "email" then (if !lib.isEmail(value) then Some(EmailMessage) else None)
    else if rule == "boolean" then (if !StrictBoolean(value) then Some(BooleanMessage(f)) else None)
    else None
  }

  /** `[$ruleName, $ruleValue] = explode(':', $rule)`: the first two pieces. */
  function RuleParts(rule: string): (parts: (string, string))
    requires ':' in rule
  {
    ExplodeSplits(':', rule);
    (Explode(':', rule)[0], Explode(':', rule)[1])
  }

  /** The `min:`/`max:` part, on `mb_strlen((string) $value)`. */
  function BoundError(f: string, value: Value, rule: string, lib: Library): Option<string>
    requires ':' in rule
  {
    var (name, text) := RuleParts(rule);
    var bound := IntCast(text);
    var length := |StringCast(value, lib)|;
    if name == "min" && length < bound then Some(MinMessage(f, bound, lib.isNumeric(value)))
    else if name == "max" && length > bound then Some(MaxMessage(f, bound))
    else None
  }

  /** The message `applyRule` records, if any. An empty value is exempt from
      every rule but `required`. Since no switch label holds a ':', at most
      one of the two checks can fire. */
  function RuleError(field: Key, value: Value, rule: string, lib: Library): Option<string> {
    var f := KeyString(field);
    if IsEmpty(value) && rule != "required" then None
    else if ':' in rule then BoundError(f, value, rule, lib)
    else SwitchError(f, value, rule, lib)
  }

  /** `$this->errors[$field][] = $msg`. */
  function AddError(errors: Arr<seq<string>>, field: Key, msg: string): (r: Arr<seq<string>>)
    ensures Get(r, field) == Some(Get(errors, field).GetOr([]) + [msg])
    ensures forall k :: k != field ==> Get(r, k) == Get(errors, k)
    ensures Count(r) >= Count(errors) && Count(r) > 0
    ensures r != errors
  {
    var r := Set(errors, field, Get(errors, field).GetOr([]) + [msg]);
    assert field in Keys(r);
    r
  }

  /** `applyRule($field, $value, $rule)`. */
  function ApplyRule(v: Validator, field: Key, value: Value, rule: string, lib: Library): (r: Validator)
    ensures RuleError(field, value, rule, lib).None? <==> r == v
    ensures RuleError(field, value, rule, lib).Some? ==>
      r.errors == AddError(v.errors, field, RuleError(field, value, rule, lib).value)
  {
    match RuleError(field, value, rule, lib)
    case None => v
    case Some(msg) => Validator(AddError(v.errors, field, msg))
  }

  /** What each switch label checks, label by label. */
  lemma SwitchLabels(f: string, value: Value, lib: Library)
    ensures SwitchError(f, value, "required", lib) == if IsEmpty(value) then Some(RequiredMessage(f)) else None
    ensures SwitchError(f, value, "boolean", lib) == if StrictBoolean(value) then None else Some(BooleanMessage(f))
  {
    assert "required" != "text" && "required" != "number" && "required" != "date" && "required" != "timestamp";
    assert "boolean" != "text" && "boolean" != "number" && "boolean" != "date" && "boolean" != "timestamp";
    assert "boolean" != "required" && "boolean" != "email";
  }

  lemma NoColon()
    ensures ':' !in "required" && ':' !in "boolean"
  {
    assert forall j :: 0 <= j < |"required"| ==> "required"[j] != ':';
    assert forall j :: 0 <= j < |"boolean"| ==> "boolean"[j] != ':';
  }

  /** An empty value passes every rule except `required`, which adds exactly
      one message for it. */
  lemma EmptyValueRules(v: Validator, field: Key, value: Value, rule: string, lib: Library)
    requires IsEmpty(value)
    ensures rule != "required" ==> ApplyRule(v, field, value, rule, lib) == v
    ensures rule == "required" ==>
      ApplyRule(v, field, value, rule, lib).errors == AddError(v.errors, field, RequiredMessage(KeyString(field)))
  {
    if rule == "required" {
      NoColon();
      SwitchLabels(KeyString(field), value, lib);
    }
  }

  /** `boolean` accepts a non-empty value exactly when it is one of the
      eight strict spellings. */
  lemma BooleanRule(v: Validator, field: Key, value: Value, lib: Library)
    requires !IsEmpty(value)
    ensures ApplyRule(v, field, value, "boolean", lib) == v <==> StrictBoolean(value)
  {
    NoColon();
    SwitchLabels(KeyString(field), value, lib);
  }

  lemma BoundRuleParts(name: string, text: string)
    requires ':' !in name && ':' !in text
    ensures ':' in name + ":" + text
    ensures RuleParts(name + ":" + text) == (name, text)
  {
    var rule := name + ":" + text;
    assert rule[|name|] == ':';
    assert IndexOfChar(rule, ':') == |name| by {
      assert forall j :: 0 <= j < |name| ==> rule[j] == name[j];
    }
    ExplodeSplits(':', rule);
    assert rule[..|name|] == name;
    assert rule[|name| + 1..] == text;
    ExplodeSplits(':', text);
    assert IndexOfChar(text, ':') == |text|;
    assert text[..|text|] == text;
  }

  /** The bound rules, at the level of the recorded message: the bound is
      the `(int)` cast of the text after the colon. */
  lemma BoundErrors(f: string, value: Value, text: string, lib: Library)
    requires ':' !in text
    ensures ':' in "min:" + text && ':' in "max:" + text
    ensures BoundError(f, value, "min:" + text, lib).Some? <==> |StringCast(value, lib)| < IntCast(text)
    ensures BoundError(f, value, "max:" + text, lib).Some? <==> |StringCast(value, lib)| > IntCast(text)
  {
    assert ':' !in "min" && ':' !in "max";
    assert "min" + ":" + text == "min:" + text && "max" + ":" + text == "max:" + text;
    BoundRuleParts("min", text);
    BoundRuleParts("max", text);
    assert "min" != "max";
  }

  /** `min:T` fails a non-empty value exactly when its text is shorter than
      `(int) T` characters, `max:T` exactly when it is longer. */
  lemma MinMaxRules(v: Validator, field: Key, value: Value, text: string, lib: Library)
    requires !IsEmpty(value) && ':' !in text
    ensures ApplyRule(v, field, value, "min:" + text, lib) != v <==> |StringCast(value, lib)| < IntCast(text)
    ensures ApplyRule(v, field, value, "max:" + text, lib) != v <==> |StringCast(value, lib)| > IntCast(text)
  {
    BoundErrors(KeyString(field), value, text, lib);
    assert "min:" + text != "required" by {
      assert ("min:" + text)[0] == 'm';
    }
    assert "max:" + text != "required" by {
      assert ("max:" + text)[0] == 'm';
    }
  }

  /** With a decimal bound `min:N` / `max:N`, the bound is N itself while N
      fits a PHP integer. */
  lemma MinMaxDecimal(v: Validator, field: Key, value: Value, n: nat, lib: Library)
    requires !IsEmpty(value)
    ensures ApplyRule(v, field, value, "min:" + NatToString(n), lib) != v <==> |StringCast(value, lib)| < SaturatedNat(n)
    ensures ApplyRule(v, field, value, "max:" + NatToString(n), lib) != v <==> |StringCast(value, lib)| > SaturatedNat(n)
  {
    var digits := NatToString(n);
    assert ':' !in digits by {
      assert forall j :: 0 <= j < |digits| ==> IsDigit(digits[j]);
    }
    MinMaxRules(v, field, value, digits, lib);
    IntCastNat(n);
  }

  /** Scientific bounds are scaled: `min:1e3` asks for 1000 characters. */
  lemma MinMaxScientific(v: Validator, field: Key, value: Value, m: nat, k: nat, lib: Library)
    requires !IsEmpty(value)
    ensures ApplyRule(v, field, value, "min:" + NatToString(m) + "e" + NatToString(k), lib) != v
        <==> |StringCast(value, lib)| < SaturatedNat(Scale(m, k))
  {
    var text := NatToString(m) + "e" + NatToString(k);
    NoColonInNumber(NatToString(m), NatToString(k));
    assert "min:" + NatToString(m) + "e" + NatToString(k) == "min:" + text;
    MinMaxRules(v, field, value, text, lib);
    IntCastScientific(m, k);
  }

  lemma NoColonInNumber(a: string, b: string)
    requires AllDigits(a) && AllDigits(b)
    ensures ':' !in a + "e" + b
  {
    var text := a + "e" + b;
    assert forall j :: 0 <= j < |text| ==> text[j] == (if j < |a| then a[j] else if j == |a| then 'e' else b[j - |a| - 1]);
  }

  /** A rule the validator does not know adds nothing. */
  lemma UnknownRule(v: Validator, field: Key, value: Value, rule: string, lib: Library)
    requires ':' !in rule
    requires rule !in ["text", "number", "date", "timestamp", "required", "email", "boolean"]
    ensures ApplyRule(v, field, value, rule, lib) == v
  {
    assert SwitchError(KeyString(field), value, rule, lib).None?;
  }

  // ------------------------------------------------------------ whole rule sets

  /** `foreach ($rulesArray as $rule) $this->applyRule(...)`. */
  function ApplyRules(v: Validator, field: Key, value: Value, rules: seq<string>, lib: Library): (r: Validator)
    ensures Count(r.errors) >= Count(v.errors)
    decreases |rules|
  {
    if rules == [] then v else ApplyRules(ApplyRule(v, field, value, rules[0], lib), field, value, rules[1..], lib)
  }

  /** `$data[$field] ?? null`. */
  function FieldValue(data: Arr<Value>, field: Key): Value {
    Get(data, field).GetOr(Null)
  }

  /** `foreach ($rules as $field => $fieldRules)`, each rule string split on '|'. */
  function ValidateFields(v: Validator, data: Arr<Value>, rules: seq<(Key, string)>, lib: Library): (r: Validator)
    ensures Count(r.errors) >= Count(v.errors)
    decreases |rules|
  {
    if rules == [] then v
    else
      var field := rules[0].0;
      ValidateFields(ApplyRules(v, field, FieldValue(data, field), Explode('|', rules[0].1), lib), data, rules[1..], lib)
  }

  /** `validate($data, $rules)`: true iff the error map is empty afterwards.
      Errors from earlier calls stay, so a validator that failed once fails
      every later call. */
  function Validate(v: Validator, data: Arr<Value>, rules: Arr<string>, lib: Library): (r: (Validator, bool))
    ensures r.1 <==> Count(r.0.errors) == 0
    ensures Count(r.0.errors) >= Count(v.errors)
    ensures Count(v.errors) > 0 ==> !r.1
  {
    var w := ValidateFields(v, data, rules.entries, lib);
    (w, w.errors.entries == [])
  }

  /** Every rule of a list passes the value. */
  predicate AllPass(field: Key, value: Value, rules: seq<string>, lib: Library) {
    forall j :: 0 <= j < |rules| ==> RuleError(field, value, rules[j], lib).None?
  }

  lemma {:induction false} ApplyRulesExact(v: Validator, field: Key, value: Value, rules: seq<string>, lib: Library)
    ensures AllPass(field, value, rules, lib) ==> ApplyRules(v, field, value, rules, lib) == v
    ensures !AllPass(field, value, rules, lib) ==> Count(ApplyRules(v, field, value, rules, lib).errors) > 0
    decreases |rules|
  {
    if rules != [] {
      var v1 := ApplyRule(v, field, value, rules[0], lib);
      ApplyRulesExact(v1, field, value, rules[1..], lib);
      if AllPass(field, value, rules, lib) {
        assert RuleError(field, value, rules[0], lib).None?;
        assert AllPass(field, value, rules[1..], lib) by {
          forall j | 0 <= j < |rules[1..]|
            ensures RuleError(field, value, rules[1..][j], lib).None?
          {
            assert rules[1..][j] == rules[j + 1];
          }
        }
      } else if RuleError(field, value, rules[0], lib).None? {
        var j :| 0 <= j < |rules| && RuleError(field, value, rules[j], lib).Some?;
        assert rules[1..][j - 1] == rules[j];
      }
    }
  }

  /** Every rule of every field passes. */
  predicate AllFieldsPass(data: Arr<Value>, rules: seq<(Key, string)>, lib: Library) {
    forall i :: 0 <= i < |rules| ==>
      AllPass(rules[i].0, FieldValue(data, rules[i].0), Explode('|', rules[i].1), lib)
  }

  lemma {:induction false} ValidateFieldsExact(v: Validator, data: Arr<Value>, rules: seq<(Key, string)>, lib: Library)
    ensures AllFieldsPass(data, rules, lib) ==> ValidateFields(v, data, rules, lib) == v
    ensures !AllFieldsPass(data, rules, lib) ==> Count(ValidateFields(v, data, rules, lib).errors) > 0
    decreases |rules|
  {
    if rules != [] {
      var field := rules[0].0;
      var v1 := ApplyRules(v, field, FieldValue(data, field), Explode('|', rules[0].1), lib);
      ApplyRulesExact(v, field, FieldValue(data, field), Explode('|', rules[0].1), lib);
      ValidateFieldsExact(v1, data, rules[1..], lib);
      if AllFieldsPass(data, rules, lib) {
        assert AllFieldsPass(data, rules[1..], lib) by {
          forall i | 0 <= i < |rules[1..]|
            ensures AllPass(rules[1..][i].0, FieldValue(data, rules[1..][i].0), Explode('|', rules[1..][i].1), lib)
          {
            assert rules[1..][i] == rules[i + 1];
          }
        }
      } else if AllPass(field, FieldValue(data, field), Explode('|', rules[0].1), lib) {
        var i :| 0 <= i < |rules| && !AllPass(rules[i].0, FieldValue(data, rules[i].0), Explode('|', rules[i].1), lib);
        assert rules[1..][i - 1] == rules[i];
      }
    }
  }

  /** On a validator without errors, `validate` returns true exactly when
      every rule of every field passes its value, and then records nothing. */
  lemma ValidateExact(v: Validator, data: Arr<Value>, rules: Arr<string>, lib: Library)
    requires Count(v.errors) == 0
    ensures Validate(v, data, rules, lib).1 <==> AllFieldsPass(data, rules.entries, lib)
    ensures AllFieldsPass(data, rules.entries, lib) ==> Validate(v, data, rules, lib).0 == v
  {
    ValidateFieldsExact(v, data, rules.entries, lib);
  }

  /** A field whose rules include `required` fails when its value is empty
      or absent. */
  lemma RequiredFieldFails(v: Validator, data: Arr<Value>, rules: Arr<string>, i: nat, lib: Library)
    requires i < Count(rules)
    requires "required" in Explode('|', rules.entries[i].1)
    requires IsEmpty(FieldValue(data, rules.entries[i].0))
    ensures !Validate(v, data, rules, lib).1
  {
    var rs := Explode('|', rules.entries[i].1);
    var j :| 0 <= j < |rs| && rs[j] == "required";
    assert ':' !in rs[j] by { assert rs[j] == "required"; }
    assert RuleError(rules.entries[i].0, FieldValue(data, rules.entries[i].0), rs[j], lib).Some?;
    ValidateFieldsExact(v, data, rules.entries, lib);
  }

  /** `errors()`. */
  function Errors(v: Validator): Arr<seq<string>> {
    v.errors
  }
}
