/** The router: the normalisation every registered and requested path goes
    through, the group stack that `controller()` and `Route::middlewares()`
    push and pop around their callbacks, the per-method route table that
    `get`/`post`/`view` fill, and the first-match search of `resolve`.
    Rendering, controller construction by reflection and the middleware
    pipeline are not part of this model. */
module Routing {
  import opened Wrappers
  import opened Php
  import opened Arrays

  // ------------------------------------------------------------ normalizeUri

  /** `str_replace(['index.php', '.php'], '', $path)`: one pass for each
      search string, in that order. */
  function StripScript(p: string): (r: string)
    ensures |r| <= |p|
    ensures forall c :: c in r ==> c in p
  {
    RemoveAll(RemoveAll(p, "index.php"), ".php")
  }

  /** The shape of every normalised path: a leading '/', no query string, and
      no '/' at the end or doubled at the start unless the path is "/". */
  predicate CanonicalShape(r: string) {
    && |r| > 0 && r[0] == '/'
    && '?' !in r
    && (r == "/" || (|r| >= 2 && r[1] != '/' && r[|r| - 1] != '/'))
  }

  /** `normalizeUri($path)`: only the part before the first '?' counts. */
  function NormalizeUri(path: string): (r: string)
    ensures CanonicalShape(r)
  {
    NormalizeToken(FirstToken(path, '?'))
  }

  /** `normalizeUri` after `strtok`. */
  function NormalizeToken(token: string): (r: string)
    requires '?' !in token
    ensures CanonicalShape(r)
  {
    var p0 := StripScript(token);
    var p1 := if p0 == "//" then "/" else p0;
    var p2 := if p1 == "index.php" || p1 == "" then "/" else p1;
    if p2 != "/" then
      var t := TrimBy(p2, {'/'});
      TrimByChars(p2, {'/'});
      "/" + t
    else p2
  }

  lemma TrimByChars(s: string, cs: set<char>)
    ensures forall c :: c in TrimBy(s, cs) ==> c in s
  {
    var l := TrimLeft(s, cs);
    assert forall i :: 0 <= i < |l| ==> l[i] == s[|s| - |l| + i];
    var t := TrimRight(l, cs);
    assert forall i :: 0 <= i < |t| ==> t[i] == l[i];
  }

  lemma ScriptOccurs(p: string, i: nat)
    requires OccursAt(p, "index.php", i)
    ensures OccursAt(p, ".php", i + 5)
  {
    assert p[i + 5..i + 9] == p[i..i + 9][5..];
  }

  /** A path already in normal form with nothing to strip is left alone. */
  lemma NormalizeCanonical(p: string)
    requires CanonicalShape(p) && !Occurs(p, ".php")
    ensures NormalizeUri(p) == p
  {
    TokenOfCanonical(p);
    StripCanonical(p);
    TrimCanonical(p);
  }

  lemma TokenOfCanonical(p: string)
    requires CanonicalShape(p)
    ensures FirstToken(p, '?') == p
  {
    assert TrimLeft(p, {'?'}) == p;
  }

  lemma StripCanonical(p: string)
    requires !Occurs(p, ".php")
    ensures StripScript(p) == p
  {
    assert !Occurs(p, "index.php") by {
      forall i: nat | OccursAt(p, "index.php", i)
        ensures false
      {
        ScriptOccurs(p, i);
      }
    }
    RemoveAbsent(p, "index.php");
    RemoveAbsent(p, ".php");
  }

  lemma TrimCanonical(p: string)
    requires CanonicalShape(p) && StripScript(p) == p
    ensures NormalizeToken(p) == p
  {
    if p != "/" {
      assert p != "//" && p != "" && p != "index.php" by {
        assert p[0] == '/';
        assert "index.php"[0] == 'i';
      }
      assert TrimLeft(p[1..], {'/'}) == p[1..];
      assert TrimLeft(p, {'/'}) == p[1..];
      assert TrimRight(p[1..], {'/'}) == p[1..];
      assert "/" + p[1..] == p;
    }
  }

  /** Normalising twice is normalising once, unless the first pass leaves a
      ".php" behind (as it does for "/a..phpphp", whose single pass yields
      "/a.php"). */
  lemma NormalizeIdempotent(p: string)
    requires !Occurs(NormalizeUri(p), ".php")
    ensures NormalizeUri(NormalizeUri(p)) == NormalizeUri(p)
  {
    NormalizeCanonical(NormalizeUri(p));
  }

  /** Everything from the first '?' on is ignored. */
  lemma QueryStringIgnored(p: string, q: string)
    requires |p| > 0 && p[0] != '?' && '?' !in p
    ensures NormalizeUri(p + "?" + q) == NormalizeUri(p)
  {
    var s := p + "?" + q;
    assert TrimLeft(s, {'?'}) == s;
    assert TrimLeft(p, {'?'}) == p;
    assert IndexOfChar(s, '?') == |p| by {
      assert s[|p|] == '?';
      assert forall j :: 0 <= j < |p| ==> s[j] == p[j];
    }
    assert s[..|p|] == p;
    assert FirstToken(s, '?') == FirstToken(p, '?');
    assert NormalizeUri(s) == NormalizeToken(FirstToken(s, '?'));
  }

  // ------------------------------------------------------------ array_unique

  /** The position of the first `x` in `xs`, or `|xs|`. */
  function IndexOf<T(==)>(xs: seq<T>, x: T): (r: nat)
    ensures r <= |xs|
    ensures r < |xs| <==> x in xs
    ensures r < |xs| ==> xs[r] == x
    ensures forall j :: 0 <= j < r ==> xs[j] != x
  {
    if xs == [] then 0 else if xs[0] == x then 0 else 1 + IndexOf(xs[1..], x)
  }

  /** `array_unique` on a list of names: the first occurrence of each value,
      in order. Keys are not renumbered in the source; only the values are
      used afterwards, so they are all this keeps. */
  function ArrayUnique(xs: seq<string>): (r: seq<string>)
    ensures forall x :: x in r <==> x in xs
    ensures Distinct(r)
    ensures forall i, j :: 0 <= i < j < |r| ==> IndexOf(xs, r[i]) < IndexOf(xs, r[j])
    decreases |xs|
  {
    if xs == [] then []
    else
      var init := xs[..|xs| - 1];
      var u := ArrayUnique(init);
      var x := xs[|xs| - 1];
      assert xs == init + [x];
      IndexOfPrefix(init, x, u);
      if x in u then u else u + [x]
  }

  /** Positions in a prefix carry over to the whole list, and a value first
      seen at the end comes after every value of the prefix. */
  lemma IndexOfPrefix(init: seq<string>, x: string, u: seq<string>)
    requires forall y :: y in u ==> y in init
    ensures forall y :: y in init ==> IndexOf(init + [x], y) == IndexOf(init, y)
    ensures x !in init ==> IndexOf(init + [x], x) == |init|
    ensures x !in init ==> forall i :: 0 <= i < |u| ==> IndexOf(init + [x], u[i]) < |init|
  {
    var xs := init + [x];
    forall y | y in init
      ensures IndexOf(xs, y) == IndexOf(init, y)
    {
      var k := IndexOf(init, y);
      assert xs[k] == y;
    }
    if x !in init {
      assert xs[|init|] == x;
    }
  }

  /** A list without repeats is its own `array_unique`. */
  lemma {:induction false} UniqueOfDistinct(xs: seq<string>)
    requires Distinct(xs)
    ensures ArrayUnique(xs) == xs
    decreases |xs|
  {
    if xs != [] {
      var init := xs[..|xs| - 1];
      forall i, j | 0 <= i < j < |init|
        ensures init[i] != init[j]
      {
        assert init[i] == xs[i] && init[j] == xs[j];
      }
      UniqueOfDistinct(init);
      assert xs[|xs| - 1] !in init by {
        forall i | 0 <= i < |init|
          ensures init[i] != xs[|xs| - 1]
        {
          assert init[i] == xs[i];
        }
      }
      assert init + [xs[|xs| - 1]] == xs;
    }
  }

  // ------------------------------------------------------------ groups and routes

  /** A group's attributes: its middleware list (`[]` when absent) and its
      controller (`null` when absent). */
  datatype Group = Group(middleware: seq<string>, controller: Option<string>)

  /** A route callback: a closure (identified only), a string naming a method
      or a view, or a `[class, method]` pair. */
  datatype Callback = Closure(id: nat) | Text(s: string) | Action(cls: string, action: string)

  datatype RouteKind = ControllerType | ViewType

  /** One entry of `$routes[$method]`. */
  datatype Route = Route(callback: Callback, kind: RouteKind, middleware: seq<string>)

  /** The router's state: routes by HTTP method, then by normalised path in
      registration order, and the group stack. */
  datatype Router = Router(routes: map<string, Arr<Route>>, groupStack: seq<Group>)

  const Fresh: Router := Router(map[], [])

  /** `$this->routes[$method] ?? []`. */
  function Table(r: Router, httpMethod: string): Arr<Route> {
    if httpMethod in r.routes then r.routes[httpMethod] else Empty()
  }

  function Top(r: Router): Group
    requires r.groupStack != []
  {
    r.groupStack[|r.groupStack| - 1]
  }

  /** `$parentController && ...`: null, "" and "0" do not count. */
  predicate TruthyName(c: Option<string>) {
    c.Some? && Truthy(Str(c.value))
  }

  /** `pushGroup($attributes)`: under a parent, the middleware becomes the
      parent's followed by the group's own without repeats, and a group
      without a controller takes its parent's. */
  function PushGroup(r: Router, g: Group): (r': Router)
    ensures r'.routes == r.routes
    ensures |r'.groupStack| == |r.groupStack| + 1 && r'.groupStack[..|r.groupStack|] == r.groupStack
    ensures r.groupStack == [] ==> Top(r') == g
    ensures r.groupStack != [] ==>
      Top(r').middleware == ArrayUnique(Top(r).middleware + g.middleware)
    ensures r.groupStack != [] && g.controller.Some? ==> Top(r').controller == g.controller
    ensures r.groupStack != [] && g.controller.None? ==>
      Top(r').controller == (if TruthyName(Top(r).controller) then Top(r).controller else None)
  {
    var attributes :=
      if r.groupStack == [] then g
      else
        var parent := Top(r);
        var mw := ArrayUnique(parent.middleware + g.middleware);
        if TruthyName(parent.controller) && g.controller.None? then Group(mw, parent.controller)
        else Group(mw, g.controller);
    assert (r.groupStack + [attributes])[..|r.groupStack|] == r.groupStack;
    r.(groupStack := r.groupStack + [attributes])
  }

  /** `popGroup()`: `array_pop`, which does nothing on an empty stack. */
  function PopGroup(r: Router): (r': Router)
    ensures r'.routes == r.routes
    ensures r.groupStack == [] ==> r'.groupStack == []
    ensures r.groupStack != [] ==> r'.groupStack + [Top(r)] == r.groupStack
  {
    if r.groupStack == [] then r else r.(groupStack := r.groupStack[..|r.groupStack| - 1])
  }

  lemma PopPush(r: Router, g: Group)
    ensures PopGroup(PushGroup(r, g)).groupStack == r.groupStack
  {
    var p := PushGroup(r, g);
    assert p.groupStack[..|p.groupStack| - 1] == r.groupStack;
  }

  /** What `mergeGroupAttributes` hands to `get`/`post`/`view`. */
  datatype Merged = Merged(path: string, middleware: seq<string>, controller: Option<string>)

  /** `mergeGroupAttributes($path, $middleware)`: the innermost group's
      middleware followed by the route's own without repeats, and the
      innermost group's controller. */
  function MergeGroupAttributes(r: Router, path: string, middleware: seq<string>): (m: Merged)
    ensures m.path == NormalizeUri(path)
    ensures r.groupStack == [] ==> m.middleware == ArrayUnique(middleware) && m.controller.None?
    ensures r.groupStack != [] ==>
      m.middleware == ArrayUnique(Top(r).middleware + middleware) && m.controller == Top(r).controller
  {
    if r.groupStack == [] then Merged(NormalizeUri(path), ArrayUnique(middleware), None)
    else Merged(NormalizeUri(path), ArrayUnique(Top(r).middleware + middleware), Top(r).controller)
  }

  /** The array key of a normalised path: it starts with '/', so it is never
      read as an integer. */
  lemma PathKey(p: string)
    requires |p| > 0 && p[0] == '/'
    ensures StrIndex(p) == StrKey(p) && KeyString(StrIndex(p)) == p && ValidKey(StrKey(p))
  {
    assert !IsDigit(p[0]);
    assert !IsCanonicalNat(p);
    assert !IsCanonicalInt(p);
  }

  /** `$this->routes[$method][$path] = $route`. */
  function AddRoute(r: Router, httpMethod: string, path: string, route: Route): (r': Router)
    requires |path| > 0 && path[0] == '/'
    ensures r'.groupStack == r.groupStack
    ensures Get(Table(r', httpMethod), StrKey(path)) == Some(route)
    ensures forall k :: k != StrKey(path) ==> Get(Table(r', httpMethod), k) == Get(Table(r, httpMethod), k)
    ensures forall m :: m != httpMethod ==> Table(r', m) == Table(r, m)
    ensures StrKey(path) in Keys(Table(r, httpMethod)) ==> Keys(Table(r', httpMethod)) == Keys(Table(r, httpMethod))
    ensures StrKey(path) !in Keys(Table(r, httpMethod)) ==>
      Table(r', httpMethod).entries == Table(r, httpMethod).entries + [(StrKey(path), route)]
    ensures Valid(Table(r, httpMethod)) ==> Valid(Table(r', httpMethod))
  {
    PathKey(path);
    r.(routes := r.routes[httpMethod := Set(Table(r, httpMethod), StrKey(path), route)])
  }

  /** The callback `get`/`post` store: a string under a group controller
      becomes the pair `[controller, method]`. */
  function BindController(controller: Option<string>, callback: Callback): (c: Callback)
    ensures controller.Some? && callback.Text? ==> c == Action(controller.value, callback.s)
    ensures controller.None? || !callback.Text? ==> c == callback
  {
    if controller.Some? && callback.Text? then Action(controller.value, callback.s) else callback
  }

  /** What `get` and `post` do under their method. */
  function Register(r: Router, httpMethod: string, path: string, callback: Callback, middleware: seq<string>): (r': Router)
    ensures r'.groupStack == r.groupStack
    ensures var m := MergeGroupAttributes(r, path, middleware);
      Get(Table(r', httpMethod), StrKey(m.path)) == Some(Route(BindController(m.controller, callback), ControllerType, m.middleware))
    ensures forall k :: k != StrKey(NormalizeUri(path)) ==> Get(Table(r', httpMethod), k) == Get(Table(r, httpMethod), k)
    ensures forall m :: m != httpMethod ==> Table(r', m) == Table(r, m)
  {
    var m := MergeGroupAttributes(r, path, middleware);
    AddRoute(r, httpMethod, m.path, Route(BindController(m.controller, callback), ControllerType, m.middleware))
  }

  /** `get($path, $callback, $middleware)`. */
  function RouteGet(r: Router, path: string, callback: Callback, middleware: seq<string>): (r': Router)
    ensures r'.groupStack == r.groupStack
    ensures var m := MergeGroupAttributes(r, path, middleware);
      Get(Table(r', "GET"), StrKey(m.path)) == Some(Route(BindController(m.controller, callback), ControllerType, m.middleware))
    ensures forall m :: m != "GET" ==> Table(r', m) == Table(r, m)
  {
    Register(r, "GET", path, callback, middleware)
  }

  /** `post($path, $callback, $middleware)`. */
  function RoutePost(r: Router, path: string, callback: Callback, middleware: seq<string>): (r': Router)
    ensures r'.groupStack == r.groupStack
    ensures var m := MergeGroupAttributes(r, path, middleware);
      Get(Table(r', "POST"), StrKey(m.path)) == Some(Route(BindController(m.controller, callback), ControllerType, m.middleware))
    ensures forall m :: m != "POST" ==> Table(r', m) == Table(r, m)
  {
    Register(r, "POST", path, callback, middleware)
  }

  /** `view($path, $view, $middleware)`: a GET route of type view; the view
      name is never paired with a group controller. */
  function RouteView(r: Router, path: string, view: string, middleware: seq<string>): (r': Router)
    ensures r'.groupStack == r.groupStack
    ensures var m := MergeGroupAttributes(r, path, middleware);
      Get(Table(r', "GET"), StrKey(m.path)) == Some(Route(Text(view), ViewType, m.middleware))
    ensures forall k :: k != StrKey(NormalizeUri(path)) ==> Get(Table(r', "GET"), k) == Get(Table(r, "GET"), k)
    ensures forall m :: m != "GET" ==> Table(r', m) == Table(r, m)
  {
    var m := MergeGroupAttributes(r, path, middleware);
    AddRoute(r, "GET", m.path, Route(Text(view), ViewType, m.middleware))
  }

  /** Registering the same method and path again replaces the route where
      it stands: the later registration wins and the table order is kept. */
  lemma ReRegisterOverwrites(r: Router, httpMethod: string, path: string, cb1: Callback, cb2: Callback, mw: seq<string>)
    ensures var r1 := Register(r, httpMethod, path, cb1, mw);
      var r2 := Register(r1, httpMethod, path, cb2, mw);
      && Keys(Table(r2, httpMethod)) == Keys(Table(r1, httpMethod))
      && Get(Table(r2, httpMethod), StrKey(NormalizeUri(path)))
         == Some(Route(BindController(MergeGroupAttributes(r, path, mw).controller, cb2), ControllerType, MergeGroupAttributes(r, path, mw).middleware))
  {
    var r1 := Register(r, httpMethod, path, cb1, mw);
    var p := NormalizeUri(path);
    assert StrKey(p) in KeysOf(Table(r1, httpMethod).entries);
  }

  // ------------------------------------------------------------ registration scripts

  /** What a routes file does: the `Route` facade's calls, with the closures
      passed to `controllers`/`middlewares` given as the calls they make. */
  datatype Registration =
    | RegisterGet(path: string, callback: Callback, middleware: seq<string>)
    | RegisterPost(path: string, callback: Callback, middleware: seq<string>)
    | RegisterView(path: string, view: string, middleware: seq<string>)
    | Controllers(cls: string, body: seq<Registration>)
    | Middlewares(names: seq<string>, body: seq<Registration>)

  /** Runs the registrations in order. `controller($cls, $cb)` and
      `Route::middlewares($names, $cb)` push a group, run the callback and pop. */
  function Run(r: Router, regs: seq<Registration>): (r': Router)
    decreases regs
  {
    if regs == [] then r
    else
      var r1 := match regs[0]
        case RegisterGet(p, cb, mw) => RouteGet(r, p, cb, mw)
        case RegisterPost(p, cb, mw) => RoutePost(r, p, cb, mw)
        case RegisterView(p, v, mw) => RouteView(r, p, v, mw)
        case Controllers(cls, body) => PopGroup(Run(PushGroup(r, Group([], Some(cls))), body))
        case Middlewares(names, body) => PopGroup(Run(PushGroup(r, Group(names, None)), body));
      Run(r1, regs[1..])
  }

  /** `controller($controllerClass, $callback)`. */
  function Controller(r: Router, cls: string, body: seq<Registration>): (r': Router)
    ensures r'.groupStack == r.groupStack
  {
    RunBalanced(PushGroup(r, Group([], Some(cls))), body);
    PopPush(r, Group([], Some(cls)));
    PopGroup(Run(PushGroup(r, Group([], Some(cls))), body))
  }

  /** Whatever the callbacks register, the group stack ends as it began. */
  lemma {:induction false} RunBalanced(r: Router, regs: seq<Registration>)
    ensures Run(r, regs).groupStack == r.groupStack
    decreases regs
  {
    if regs != [] {
      var r1 := match regs[0]
        case RegisterGet(p, cb, mw) => RouteGet(r, p, cb, mw)
        case RegisterPost(p, cb, mw) => RoutePost(r, p, cb, mw)
        case RegisterView(p, v, mw) => RouteView(r, p, v, mw)
        case Controllers(cls, body) => PopGroup(Run(PushGroup(r, Group([], Some(cls))), body))
        case Middlewares(names, body) => PopGroup(Run(PushGroup(r, Group(names, None)), body));
      match regs[0] {
        case Controllers(cls, body) =>
          RunBalanced(PushGroup(r, Group([], Some(cls))), body);
          PopPush(r, Group([], Some(cls)));
        case Middlewares(names, body) =>
          RunBalanced(PushGroup(r, Group(names, None)), body);
          PopPush(r, Group(names, None));
        case _ =>
      }
      assert r1.groupStack == r.groupStack;
      RunBalanced(r1, regs[1..]);
    }
  }

  // ------------------------------------------------------------ matching

  /** A route path read as a pattern: literal characters and `{name}`
      placeholders. */
  datatype Segment = Lit(c: char) | Param(name: string)

  predicate NameChar(c: char) {
    ('a' <= c <= 'z') || ('A' <= c <= 'Z') || ('0' <= c <= '9') || c == '_'
  }

  /** The length of the run of `[a-zA-Z0-9_]` at the start of `s`. */
  function NameLength(s: string): (n: nat)
    ensures n <= |s|
    ensures forall i :: 0 <= i < n ==> NameChar(s[i])
    ensures n < |s| ==> !NameChar(s[n])
  {
    if s != [] && NameChar(s[0]) then 1 + NameLength(s[1..]) else 0
  }

  /** `preg_replace('/\{([a-zA-Z0-9_]+)\}/', '(?P<$1>[^/]+)', $routePath)`,
      with the rest of the path taken literally. */
  function Compile(t: string): (segs: seq<Segment>)
    decreases |t|
  {
    if t == [] then []
    else
      var n := NameLength(t[1..]);
      if t[0] == '{' && n > 0 && n + 1 < |t| && t[n + 1] == '}' then [Param(t[1..n + 1])] + Compile(t[n + 2..])
      else [Lit(t[0])] + Compile(t[1..])
  }

  /** The route text a pattern was read from. */
  function Render(segs: seq<Segment>): string {
    if segs == [] then ""
    else match segs[0]
      case Lit(c) => [c] + Render(segs[1..])
      case Param(name) => "{" + name + "}" + Render(segs[1..])
  }

  /** Reading a route path as a pattern loses nothing. */
  lemma {:induction false} RenderCompile(t: string)
    ensures Render(Compile(t)) == t
    decreases |t|
  {
    if t != [] {
      var n := NameLength(t[1..]);
      if t[0] == '{' && n > 0 && n + 1 < |t| && t[n + 1] == '}' {
        RenderCompile(t[n + 2..]);
        RenderParamStep(t, n);
      } else {
        RenderCompile(t[1..]);
        RenderLitStep(t);
      }
    }
  }

  lemma RenderParamStep(t: string, n: nat)
    requires n + 1 < |t| && n == NameLength(t[1..]) && n > 0 && t[0] == '{' && t[n + 1] == '}'
    requires Render(Compile(t[n + 2..])) == t[n + 2..]
    ensures Render(Compile(t)) == t
  {
    var segs := [Param(t[1..n + 1])] + Compile(t[n + 2..]);
    assert Compile(t) == segs;
    assert segs[1..] == Compile(t[n + 2..]);
    assert Render(segs) == "{" + t[1..n + 1] + "}" + t[n + 2..];
    BraceSplit(t, n);
  }

  lemma RenderLitStep(t: string)
    requires |t| > 0
    requires var n := NameLength(t[1..]); !(t[0] == '{' && n > 0 && n + 1 < |t| && t[n + 1] == '}')
    requires Render(Compile(t[1..])) == t[1..]
    ensures Render(Compile(t)) == t
  {
    var segs := [Lit(t[0])] + Compile(t[1..]);
    assert Compile(t) == segs;
    assert segs[1..] == Compile(t[1..]);
    assert Render(segs) == [t[0]] + t[1..];
    assert t == [t[0]] + t[1..];
  }

  lemma BraceSplit(t: string, n: nat)
    requires n + 1 < |t| && t[0] == '{' && t[n + 1] == '}'
    ensures t == "{" + t[1..n + 1] + "}" + t[n + 2..]
  {
    assert t == t[..1] + t[1..n + 1] + t[n + 1..n + 2] + t[n + 2..];
  }

  function ParamNames(segs: seq<Segment>): (names: seq<string>) {
    if segs == [] then []
    else match segs[0]
      case Lit(_) => ParamNames(segs[1..])
      case Param(name) => [name] + ParamNames(segs[1..])
  }

  /** The captures of a match: one non-empty, '/'-free text per placeholder,
      named as the placeholders are, in order. */
  predicate Captures(segs: seq<Segment>, ps: seq<(string, string)>) {
    && |ps| == |ParamNames(segs)|
    && forall i :: 0 <= i < |ps| ==> ps[i].0 == ParamNames(segs)[i] && |ps[i].1| > 0 && '/' !in ps[i].1
  }

  /** Where `$` matches when the pattern carries no `D` modifier: at the end
      of the subject, or just before a newline that ends it. */
  predicate DollarEnd(p: string) {
    |p| == 0 || (|p| == 1 && p[0] == '\n')
  }

  /** The path fits the pattern: literals match themselves, each placeholder
      some non-empty run of characters other than '/', and what is left is
      where `$` matches. */
  predicate Matches(segs: seq<Segment>, p: string)
    decreases |segs|
  {
    if segs == [] then DollarEnd(p)
    else match segs[0]
      case Lit(c) => |p| > 0 && p[0] == c && Matches(segs[1..], p[1..])
      case Param(_) => exists k :: 1 <= k <= |p| && '/' !in p[..k] && Matches(segs[1..], p[k..])
  }

  /** `preg_match("#^pattern$#", $path, $matches)` with the named captures:
      each placeholder tries its longest run first and gives back one
      character at a time, as the regex engine backtracks, and the search
      ends where `$` matches. */
  function Match(segs: seq<Segment>, p: string): (r: Option<seq<(string, string)>>)
    ensures r.Some? ==> Captures(segs, r.value)
    decreases |segs|, |p| + 1
  {
    if segs == [] then (if DollarEnd(p) then Some([]) else None)
    else match segs[0]
      case Lit(c) => if |p| > 0 && p[0] == c then Match(segs[1..], p[1..]) else None
      case Param(name) => TryParam(name, segs[1..], p, IndexOfChar(p, '/'))
  }

  function TryParam(name: string, rest: seq<Segment>, p: string, k: nat): (r: Option<seq<(string, string)>>)
    requires k <= IndexOfChar(p, '/')
    ensures r.Some? ==> Captures([Param(name)] + rest, r.value)
    decreases |rest| + 1, k
  {
    if k == 0 then None
    else match Match(rest, p[k..])
      case Some(ps) =>
        assert '/' !in p[..k];
        assert ([Param(name)] + rest)[1..] == rest;
        Some([(name, p[..k])] + ps)
      case None => TryParam(name, rest, p, k - 1)
  }

  /** A prefix of `p` is free of '/' exactly when it ends by the first '/'. */
  lemma SlashFree(p: string, k: nat)
    requires k <= |p|
    ensures '/' !in p[..k] <==> k <= IndexOfChar(p, '/')
  {
    if k > IndexOfChar(p, '/') {
      assert p[..k][IndexOfChar(p, '/')] == '/';
    }
  }

  lemma {:induction false} TryParamFinds(name: string, rest: seq<Segment>, p: string, k: nat)
    requires k <= IndexOfChar(p, '/')
    ensures TryParam(name, rest, p, k).Some? <==> exists j :: 1 <= j <= k && Match(rest, p[j..]).Some?
    decreases k
  {
    if k > 0 {
      TryParamFinds(name, rest, p, k - 1);
    }
  }

  /** The backtracking search succeeds exactly when the path fits. */
  lemma {:induction false} MatchComplete(segs: seq<Segment>, p: string)
    ensures Match(segs, p).Some? <==> Matches(segs, p)
    decreases |segs|
  {
    if segs != [] {
      match segs[0]
      case Lit(c) =>
        if |p| > 0 && p[0] == c {
          MatchComplete(segs[1..], p[1..]);
        }
      case Param(name) =>
        var rest := segs[1..];
        var l := IndexOfChar(p, '/');
        TryParamFinds(name, rest, p, l);
        forall j | 1 <= j <= |p|
          ensures Match(rest, p[j..]).Some? <==> Matches(rest, p[j..])
          ensures '/' !in p[..j] <==> j <= l
        {
          MatchComplete(rest, p[j..]);
          SlashFree(p, j);
        }
    }
  }

  /** A route path without placeholders matches itself, and itself followed
      by one newline, and nothing else; it has no group to refuse, so it fits
      exactly those paths. */
  lemma {:induction false} LiteralRoute(t: string, p: string)
    requires '{' !in t
    ensures ParamNames(Compile(t)) == []
    ensures Match(Compile(t), p).Some? <==> p == t || p == t + "\n"
    ensures Fit(Compile(t), p).Some? <==> p == t || p == t + "\n"
    decreases |t|
  {
    if t == [] {
      assert t + "\n" == "\n";
    } else {
      assert Compile(t) == [Lit(t[0])] + Compile(t[1..]);
      assert Compile(t)[1..] == Compile(t[1..]);
      assert (t + "\n")[0] == t[0] && (t + "\n")[1..] == t[1..] + "\n";
      LiteralRoute(t[1..], if |p| > 0 then p[1..] else p);
      if |p| > 0 && p[0] == t[0] {
        assert p == [p[0]] + p[1..];
        assert t == [t[0]] + t[1..];
        assert t + "\n" == [t[0]] + (t[1..] + "\n");
      }
    }
    MatchComplete(Compile(t), p);
  }

  /** A path without a '.' holds no `.php` to strip. */
  lemma NoDotNoScript(p: string)
    requires '.' !in p
    ensures !Occurs(p, ".php")
  {
    forall i | 0 <= i <= |p|
      ensures !OccursAt(p, ".php", i)
    {
      if i + 4 <= |p| {
        assert p[i..i + 4][0] == p[i];
      }
    }
  }

  /** `normalizeUri` trims only '/', so a final newline after a normal-form
      path without '.' reaches the matcher. */
  lemma FinalNewlineSurvives(t: string)
    requires CanonicalShape(t) && '.' !in t
    ensures NormalizeUri(t + "\n") == t + "\n"
  {
    var p := t + "\n";
    assert p[0] == t[0] && p[|p| - 1] == '\n';
    assert |t| >= 2 ==> p[1] == t[1];
    assert forall c :: c in p ==> c in t || c == '\n';
    NoDotNoScript(p);
    NormalizeCanonical(p);
  }

  /** A route path without placeholders fits itself followed by a newline,
      with no captures. */
  lemma LiteralNewlineFits(t: string, p: string)
    requires '{' !in t && p == t + "\n"
    ensures Fit(Compile(t), p) == Some([])
  {
    LiteralRoute(t, p);
    var r := Fit(Compile(t), p);
    assert Captures(Compile(t), r.value);
  }

  /** PCRE refuses to compile a named group whose name starts with a digit,
      or two groups of the same name; `preg_match` then returns false. */
  predicate GroupNamesCompile(segs: seq<Segment>) {
    var names := ParamNames(segs);
    && (forall i :: 0 <= i < |names| ==> |names[i]| > 0 && !IsDigit(names[i][0]))
    && (forall i, j :: 0 <= i < j < |names| ==> names[i] != names[j])
  }

  /** The truth value `resolve` tests: the captures of a pattern that
      compiles and matches, and nothing otherwise. */
  function Fit(segs: seq<Segment>, p: string): (r: Option<seq<(string, string)>>)
    ensures r.Some? <==> GroupNamesCompile(segs) && Matches(segs, p)
    ensures r.Some? ==> r == Match(segs, p)
  {
    MatchComplete(segs, p);
    if GroupNamesCompile(segs) then Match(segs, p) else None
  }

  /** A placeholder named `{1id}` is read as a parameter but never matches. */
  lemma DigitNameNeverFits()
    ensures Compile("/u/{1id}") == [Lit('/'), Lit('u'), Lit('/'), Param("1id")]
    ensures Matches(Compile("/u/{1id}"), "/u/5")
    ensures Fit(Compile("/u/{1id}"), "/u/5").None?
  {
    CompileDigitRoute();
    var segs := Compile("/u/{1id}");
    MatchDigitRoute(segs);
    MatchComplete(segs, "/u/5");
    DigitRouteNames(segs);
  }

  lemma DigitRouteNames(segs: seq<Segment>)
    requires segs == [Lit('/'), Lit('u'), Lit('/'), Param("1id")]
    ensures !GroupNamesCompile(segs)
  {
    var tail := [Param("1id")];
    assert tail[1..] == [];
    assert ParamNames(tail) == ["1id"];
    assert segs[3..] == tail;
    assert ParamNames(segs[2..]) == ParamNames(segs[3..]) by {
      assert segs[2..][1..] == segs[3..];
    }
    assert ParamNames(segs[1..]) == ParamNames(segs[2..]) by {
      assert segs[1..][1..] == segs[2..];
    }
    var names := ParamNames(segs);
    assert names == ["1id"];
    assert IsDigit(names[0][0]);
  }

  lemma CompileDigitRoute()
    ensures Compile("/u/{1id}") == [Lit('/'), Lit('u'), Lit('/'), Param("1id")]
  {
    var t := "/u/{1id}";
    var u := t[3..];
    assert u == "{1id}";
    assert NameLength("1id}") == 3 by {
      assert NameLength("}") == 0;
      assert "1id}"[1..] == "id}" && "id}"[1..] == "d}" && "d}"[1..] == "}";
    }
    assert Compile(u) == [Param("1id")] by {
      assert u[1..] == "1id}";
      assert u[5..] == [];
      assert u[1..4] == "1id";
    }
    assert t[1..][1..] == t[2..] && t[2..][1..] == t[3..];
  }

  lemma MatchDigitRoute(segs: seq<Segment>)
    requires segs == [Lit('/'), Lit('u'), Lit('/'), Param("1id")]
    ensures Match(segs, "/u/5") == Some([("1id", "5")])
  {
    var p := "/u/5";
    assert IndexOfChar("5", '/') == 1 by {
      assert "5"[1..] == [];
    }
    assert Match([], "5"[1..]) == Some([]);
    assert TryParam("1id", [], "5", 1) == Some([("1id", "5")]) by {
      assert "5"[..1] == "5";
      assert [("1id", "5")] + [] == [("1id", "5")];
    }
    var tail := [Param("1id")];
    assert tail[1..] == [];
    assert Match(tail, "5") == Some([("1id", "5")]);
    assert Match(segs[3..], p[3..]) == Match(tail, "5") by {
      assert segs[3..] == tail && p[3..] == "5";
    }
    assert Match(segs[2..], p[2..]) == Match(segs[3..], p[3..]) by {
      assert segs[2..][1..] == segs[3..] && p[2..][1..] == p[3..];
    }
    assert Match(segs[1..], p[1..]) == Match(segs[2..], p[2..]) by {
      assert segs[1..][1..] == segs[2..] && p[1..][1..] == p[2..];
    }
  }

  // ------------------------------------------------------------ resolve

  function Pattern(e: (Key, Route)): seq<Segment> {
    Compile(KeyString(e.0))
  }

  /** The first present value from position `i` on, with its position. */
  function FirstSome<T>(xs: seq<Option<T>>, i: nat): (r: Option<(nat, T)>)
    requires i <= |xs|
    ensures r.Some? ==> i <= r.value.0 < |xs| && xs[r.value.0] == Some(r.value.1)
    ensures r.Some? ==> forall j :: i <= j < r.value.0 ==> xs[j].None?
    ensures r.None? ==> forall j :: i <= j < |xs| ==> xs[j].None?
    decreases |xs| - i
  {
    if i == |xs| then None
    else if xs[i].Some? then Some((i, xs[i].value))
    else FirstSome(xs, i + 1)
  }

  /** What `preg_match` gives for each entry of a table, in table order. */
  function Fits(es: seq<(Key, Route)>, p: string): (fits: seq<Option<seq<(string, string)>>>)
    ensures |fits| == |es|
    ensures forall j :: 0 <= j < |es| ==> fits[j] == Fit(Pattern(es[j]), p)
  {
    seq(|es|, j requires 0 <= j < |es| => Fit(Pattern(es[j]), p))
  }

  /** The first entry from position `i` on whose pattern the path fits, with
      its captures. */
  function FirstMatch(es: seq<(Key, Route)>, p: string, i: nat): (r: Option<(nat, seq<(string, string)>)>)
    requires i <= |es|
    ensures r.Some? ==> i <= r.value.0 < |es| && Fit(Pattern(es[r.value.0]), p) == Some(r.value.1)
    ensures r.Some? ==> forall j :: i <= j < r.value.0 ==> Fit(Pattern(es[j]), p).None?
    ensures r.None? ==> forall j :: i <= j < |es| ==> Fit(Pattern(es[j]), p).None?
  {
    FirstSome(Fits(es, p), i)
  }

  /** Entry `i` is the first whose pattern the path fits. */
  predicate FirstFit(es: seq<(Key, Route)>, path: string, i: int) {
    && 0 <= i < |es|
    && Fit(Pattern(es[i]), path).Some?
    && forall j :: 0 <= j < i ==> Fit(Pattern(es[j]), path).None?
  }

  /** The matched route and its named parameters. */
  datatype Resolved = Resolved(route: Route, params: seq<(string, string)>)

  /** The matching loop of `resolve()`: the request path (`/` when absent) is
      normalised, the routes of the request method are tried in table order,
      and the first that fits wins; none fitting is a 404. */
  function Resolve(r: Router, httpMethod: string, requestUri: Option<string>): (res: Result<Resolved>)
    ensures var path := NormalizeUri(requestUri.GetOr("/"));
      var es := Table(r, httpMethod).entries;
      && (res.Err? <==> forall j :: 0 <= j < |es| ==> !(GroupNamesCompile(Pattern(es[j])) && Matches(Pattern(es[j]), path)))
      && (res.Err? ==> res.thrown == RouteNotFound(httpMethod, path))
      && (res.Ok? ==>
            exists i :: && FirstFit(es, path, i) && res.value.route == es[i].1
                        && res.value.params == Match(Pattern(es[i]), path).value
                        && Captures(Pattern(es[i]), res.value.params))
  {
    var path := NormalizeUri(requestUri.GetOr("/"));
    var es := Table(r, httpMethod).entries;
    match FirstMatch(es, path, 0)
    case None => Err(RouteNotFound(httpMethod, path))
    case Some((i, ps)) => Ok(Resolved(es[i].1, ps))
  }
}
