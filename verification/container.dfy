/** The service container: resolvers registered by key, and the instances
    they produced, kept so that a key is resolved at most once while its
    instance is not null. A resolver is known only by its identity; what it
    returns when called is a parameter of `Get`. */
module ServiceContainer {
  import opened Wrappers
  import opened Php

  /** `$services` (key to resolver) and `$resolved` (key to instance). */
  datatype Container = Container(services: map<string, nat>, resolved: map<string, Value>)

  const EmptyContainer: Container := Container(map[], map[])

  /** `isset($this->resolved[$key])`: a null instance does not count. */
  predicate Cached(c: Container, key: string) {
    key in c.resolved && c.resolved[key] != Null
  }

  /** What `get` returns, the container afterwards, and the resolver it
      called, if any. */
  datatype Got = Got(container: Container, instance: Value, invoked: Option<nat>)

  /** `get($key)`, where `produced` is what the key's resolver returns if it
      is called. */
  function Get(c: Container, key: string, produced: Value): (r: Result<Got>)
    ensures r.Err? <==> !Cached(c, key) && key !in c.services
    ensures r.Err? ==> r.thrown == ServiceNotFound(key)
    ensures Cached(c, key) ==> r == Ok(Got(c, c.resolved[key], None))
    ensures r.Ok? && !Cached(c, key) ==>
      && r.value.invoked == Some(c.services[key])
      && r.value.instance == produced
      && r.value.container.services == c.services
      && r.value.container.resolved == c.resolved[key := produced]
  {
    if Cached(c, key) then Ok(Got(c, c.resolved[key], None))
    else if key !in c.services then Err(ServiceNotFound(key))
    else Ok(Got(c.(resolved := c.resolved[key := produced]), produced, Some(c.services[key])))
  }

  /** `set($key, $resolver)`: the new resolver replaces the old one and any
      instance cached under the key is dropped. */
  function Set(c: Container, key: string, resolver: nat): (r: Container)
    ensures r.services == c.services[key := resolver]
    ensures key !in r.resolved
    ensures forall k :: k != key ==> (k in r.resolved <==> k in c.resolved)
    ensures forall k :: k != key && k in c.resolved ==> r.resolved[k] == c.resolved[k]
  {
    Container(c.services[key := resolver], c.resolved - {key})
  }

  /** Once a key has produced a non-null instance, every later `get` returns
      that instance without calling a resolver, whatever it would return. */
  lemma GetMemoises(c: Container, key: string, first: Value, later: Value)
    requires Get(c, key, first).Ok? && Get(c, key, first).value.instance != Null
    ensures var g := Get(c, key, first).value;
      Get(g.container, key, later) == Ok(Got(g.container, g.instance, None))
  {
  }

  /** A null instance is stored but not reused: the next `get` calls the
      resolver again. */
  lemma NullNotMemoised(c: Container, key: string, later: Value)
    requires !Cached(c, key) && key in c.services
    ensures var g := Get(c, key, Null).value;
      Get(g.container, key, later).value.invoked == Some(c.services[key])
  {
  }

  /** After `set`, the next `get` of the key calls the new resolver. */
  lemma SetThenGet(c: Container, key: string, resolver: nat, produced: Value)
    ensures Get(Set(c, key, resolver), key, produced) ==
      Ok(Got(Set(c, key, resolver).(resolved := Set(c, key, resolver).resolved[key := produced]), produced, Some(resolver)))
  {
  }

  /** Getting or setting one key leaves what every other key resolves to
      alone. */
  lemma OtherKeysUntouched(c: Container, key: string, other: string, produced: Value, resolver: nat)
    requires other != key
    ensures Get(c, key, produced).Ok? ==>
      (Cached(Get(c, key, produced).value.container, other) <==> Cached(c, other))
    ensures Cached(Set(c, key, resolver), other) <==> Cached(c, other)
    ensures other in Set(c, key, resolver).services <==> other in c.services
  {
  }

  /** A key that was never set and never resolved cannot be got. */
  lemma UnknownKey(key: string, produced: Value)
    ensures Get(EmptyContainer, key, produced) == Err(ServiceNotFound(key))
  {
  }
}
