/** The `.env` loader: how one line of the file becomes a variable, how the
    file's lines fill `$_ENV` and `$_SERVER`, and the coercion `env()` applies
    on the way out. Reading the file is replaced by its lines as a parameter. */
module Env {
  import opened Wrappers
  import opened Php

  const Quotes: set<char> := {'"', '\''}

  /** `preg_match('/^["\'](.*)["\']$/', $value, $m)` then `$m[1]`: one layer
      of quotes is removed, and the two quote characters need not match.
      `.` does not cross a newline. */
  function Unquote(v: string): (r: string)
    ensures |v| >= 2 && v[0] in Quotes && v[|v| - 1] in Quotes && '\n' !in v[1..|v| - 1] ==> r == v[1..|v| - 1]
    ensures !(|v| >= 2 && v[0] in Quotes && v[|v| - 1] in Quotes) ==> r == v
  {
    if |v| >= 2 && v[0] in Quotes && v[|v| - 1] in Quotes && '\n' !in v[1..|v| - 1] then v[1..|v| - 1] else v
  }

  /** One line of the file: the variable it defines, or `None` when it is
      blank, a comment, has no '=', or has an empty key. */
  function ParseLine(line: string): (r: Option<(string, string)>)
    ensures StartsWith(Trim(line), "#") || '=' !in Trim(line) ==> r.None?
    ensures r.Some? ==> '=' !in r.value.0 && !IsEmpty(Str(r.value.0))
  {
    var t := Trim(line);
    if StartsWith(t, "#") || IsEmpty(Str(t)) then None
    else if '=' !in t then None
    else
      var i := IndexOfChar(t, '=');
      var key := Trim(t[..i]);
      var value := Unquote(Trim(t[i + 1..]));
      TrimChars(t[..i]);
      if IsEmpty(Str(key)) then None else Some((key, value))
  }

  lemma TrimChars(s: string)
    ensures forall c :: c in Trim(s) ==> c in s
  {
    var l := TrimLeft(s, Whitespace);
    assert forall i :: 0 <= i < |l| ==> l[i] == s[|s| - |l| + i];
    var t := TrimRight(l, Whitespace);
    assert forall i :: 0 <= i < |t| ==> t[i] == l[i];
  }

  /** A key the file can define as written: non-empty, not "0", no '=', not
      starting a comment and not padded. */
  predicate PlainKey(k: string) {
    && |k| > 0 && k != "0" && '=' !in k && k[0] != '#'
    && k[0] !in Whitespace && k[|k| - 1] !in Whitespace
  }

  /** A value that reads back as written: unpadded and not quoted. */
  predicate PlainValue(v: string) {
    v == [] || (v[0] !in Whitespace && v[|v| - 1] !in Whitespace && !(|v| >= 2 && v[0] in Quotes && v[|v| - 1] in Quotes))
  }

  /** The line `KEY=value` the loader splits back into its key and value. */
  lemma PlainLineRoundTrip(k: string, v: string)
    requires PlainKey(k) && PlainValue(v)
    ensures ParseLine(k + "=" + v) == Some((k, v))
  {
    var t := k + "=" + v;
    KeyedLine(k, v);
    TrimUnpadded(k);
    if v != [] {
      TrimUnpadded(v);
    }
    assert Unquote(Trim(v)) == v;
    ParsesAs(t, k, v);
  }

  /** A quoted value loses exactly its quotes, whatever lies between them. */
  lemma QuotedLineRoundTrip(k: string, open: char, v: string, close: char)
    requires PlainKey(k) && open in Quotes && close in Quotes && '\n' !in v
    ensures ParseLine(k + "=" + ([open] + v + [close])) == Some((k, v))
  {
    var q := [open] + v + [close];
    var t := k + "=" + q;
    KeyedLine(k, q);
    TrimUnpadded(k);
    TrimUnpadded(q);
    assert q[1..|q| - 1] == v;
    assert Unquote(Trim(q)) == v;
    ParsesAs(t, k, v);
  }

  /** The facts about `KEY=rest` that `ParseLine` looks at. */
  lemma KeyedLine(k: string, v: string)
    requires PlainKey(k) && (v == [] || v[|v| - 1] !in Whitespace)
    ensures var t := k + "=" + v;
      && Trim(t) == t && !StartsWith(t, "#") && !IsEmpty(Str(t)) && '=' in t
      && IndexOfChar(t, '=') == |k| && t[..|k|] == k && t[|k| + 1..] == v
  {
    var t := k + "=" + v;
    assert t[0] == k[0];
    assert t[|t| - 1] !in Whitespace by {
      if v == [] {
        assert t[|t| - 1] == '=';
      } else {
        assert t[|t| - 1] == v[|v| - 1];
      }
    }
    TrimUnpadded(t);
    assert t[..1] != "#" by {
      assert t[..1][0] == k[0];
    }
    assert |t| >= 2;
    assert t[|k|] == '=';
    assert forall j :: 0 <= j < |k| ==> t[j] == k[j];
    assert t[..|k|] == k;
    assert t[|k| + 1..] == v;
  }

  /** `ParseLine` from the facts it tests. */
  lemma ParsesAs(t: string, key: string, value: string)
    requires Trim(t) == t && !StartsWith(t, "#") && !IsEmpty(Str(t)) && '=' in t
    requires Trim(t[..IndexOfChar(t, '=')]) == key && !IsEmpty(Str(key))
    requires Unquote(Trim(t[IndexOfChar(t, '=') + 1..])) == value
    ensures ParseLine(t) == Some((key, value))
  {
  }

  /** `$_ENV` and `$_SERVER`, by variable name. */
  datatype Globals = Globals(env: map<string, Value>, server: map<string, Value>)

  /** One line's effect: a defined variable is written to both arrays. */
  function LoadLine(g: Globals, line: string): Globals {
    match ParseLine(line)
    case None => g
    case Some((k, v)) => Globals(g.env[k := Str(v)], g.server[k := Str(v)])
  }

  /** The `foreach` over the file's lines. */
  function LoadLines(g: Globals, lines: seq<string>): Globals
    decreases |lines|
  {
    if lines == [] then g else LoadLines(LoadLine(g, lines[0]), lines[1..])
  }

  /** `load_env($filePath)`, given the file's lines, or `None` when there is
      no such file. */
  function LoadEnv(g: Globals, filePath: string, file: Option<seq<string>>): (r: Result<Globals>)
    ensures file.None? <==> r.Err?
    ensures r.Err? ==> r.thrown == EnvFileNotFound(filePath)
    ensures r.Ok? ==> forall k :: Var(r.value.env, k) == (if LastValue(file.value, k).Some? then Some(Str(LastValue(file.value, k).value)) else Var(g.env, k))
    ensures r.Ok? ==> forall k :: Var(r.value.server, k) == (if LastValue(file.value, k).Some? then Some(Str(LastValue(file.value, k).value)) else Var(g.server, k))
  {
    match file
    case None => Err(EnvFileNotFound(filePath))
    case Some(lines) =>
      forall k {
        LoadLinesLookup(g, lines, k);
      }
      Ok(LoadLines(g, lines))
  }

  function Var(m: map<string, Value>, k: string): Option<Value> {
    if k in m then Some(m[k]) else None
  }

  /** The value the last line defining `k` gives it, if any line does. */
  function LastValue(lines: seq<string>, k: string): Option<string>
    decreases |lines|
  {
    if lines == [] then None
    else match LastValue(lines[1..], k)
      case Some(v) => Some(v)
      case None =>
        if ParseLine(lines[0]).Some? && ParseLine(lines[0]).value.0 == k then Some(ParseLine(lines[0]).value.1) else None
  }

  /** After loading, a variable holds what the last line defining it says, in
      both arrays; a variable no line defines keeps its earlier value. */
  lemma {:induction false} LoadLinesLookup(g: Globals, lines: seq<string>, k: string)
    ensures var r := LoadLines(g, lines);
      && Var(r.env, k) == (if LastValue(lines, k).Some? then Some(Str(LastValue(lines, k).value)) else Var(g.env, k))
      && Var(r.server, k) == (if LastValue(lines, k).Some? then Some(Str(LastValue(lines, k).value)) else Var(g.server, k))
    decreases |lines|
  {
    if lines != [] {
      LoadLinesLookup(LoadLine(g, lines[0]), lines[1..], k);
    }
  }

  /** `$_ENV[$key] ?? $_SERVER[$key] ?? $default`: a null entry counts as
      missing. */
  function Lookup(g: Globals, key: string, default: Value): (r: Value)
    ensures key in g.env && g.env[key] != Null ==> r == g.env[key]
    ensures (key !in g.env || g.env[key] == Null) && key in g.server && g.server[key] != Null ==> r == g.server[key]
    ensures (key !in g.env || g.env[key] == Null) && (key !in g.server || g.server[key] == Null) ==> r == default
  {
    if key in g.env && g.env[key] != Null then g.env[key]
    else if key in g.server && g.server[key] != Null then g.server[key]
    else default
  }

  /** The `switch (strtolower($value))` of `env()`. */
  function Coerce(v: Value): (r: Value)
    ensures r.Str? ==> r == v && Lower(v.s) != "true" && Lower(v.s) != "false" && Lower(v.s) != "null"
    ensures !v.Str? ==> r == v
    ensures v.Str? && !r.Str? ==> (r == Bool(true) <==> Lower(v.s) == "true")
    ensures v.Str? && !r.Str? ==> (r == Bool(false) <==> Lower(v.s) == "false")
    ensures v.Str? && !r.Str? ==> (r == Null <==> Lower(v.s) == "null")
  {
    if v.Str? then
      var l := Lower(v.s);
      if l == "true" then Bool(true)
      else if l == "false" then Bool(false)
      else if l == "null" then Null
      else v
    else v
  }

  /** Coercing twice is coercing once. */
  lemma CoerceIdempotent(v: Value)
    ensures Coerce(Coerce(v)) == Coerce(v)
  {
  }

  /** `env($key, $default)`. */
  function EnvValue(g: Globals, key: string, default: Value): (r: Value)
    ensures key !in g.env && key !in g.server ==> r == Coerce(default)
    ensures key in g.env && g.env[key] != Null ==> r == Coerce(g.env[key])
    ensures r.Str? ==> Lower(r.s) != "true" && Lower(r.s) != "false" && Lower(r.s) != "null"
  {
    Coerce(Lookup(g, key, default))
  }

  /** The words are matched in any case. */
  lemma CaseInsensitive(g: Globals, key: string, s: string)
    requires key in g.env && g.env[key] == Str(s) && Lower(s) == "true"
    ensures EnvValue(g, key, Null) == Bool(true)
  {
  }

  /** A variable the file defines as `KEY=value` reads back through `env`
      as the coercion of that value, whatever was there before. */
  lemma LoadedThenRead(g: Globals, k: string, v: string, d: Value)
    requires PlainKey(k) && PlainValue(v)
    ensures LoadEnv(g, ".env", Some([k + "=" + v])).Ok?
    ensures EnvValue(LoadEnv(g, ".env", Some([k + "=" + v])).value, k, d) == Coerce(Str(v))
  {
    var line := k + "=" + v;
    PlainLineRoundTrip(k, v);
    LastOfOne(line, k);
    LoadLinesLookup(g, [line], k);
    var r := LoadLines(g, [line]);
    assert LoadEnv(g, ".env", Some([line])) == Ok(r);
    assert Var(r.env, k) == Some(Str(v));
    assert Lookup(r, k, d) == Str(v);
  }

  lemma LastOfOne(line: string, k: string)
    ensures LastValue([line], k) == if ParseLine(line).Some? && ParseLine(line).value.0 == k then Some(ParseLine(line).value.1) else None
  {
    assert [line][1..] == [];
  }
}
