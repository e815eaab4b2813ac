/** `Collection`: the immutable result wrapper that `QueryBuilder::get` returns.
    Every transformation builds a new collection from the receiver's item array;
    the only members that change the receiver are the `ArrayAccess` writers,
    which here return the changed collection. */
module Collections {
  import opened Wrappers
  import opened Php
  import opened Arrays

  /** What a query hands back: an associative row, or a model instance that was
      hydrated from one because the builder carried a model class. */
  datatype Item = Row(fields: Arr<Value>) | Instance(model: string, attributes: Arr<Value>)

  datatype Collection<T> = Collection(items: Arr<T>)

  /** The stored fields of an item, whatever its shape. */
  function Fields(item: Item): Arr<Value> {
    match item
    case Row(fields) => fields
    case Instance(_, attributes) => attributes
  }

  /** `is_object($item) ? ($item->$key ?? null) : ($item[$key] ?? null)`: the
      stored value, or null when the field is absent. On a model the `??` read
      calls `__get`, because `Models` defines no `__isset`, and `__get` answers
      `$this->attributes[$key] ?? null`. */
  function Field(item: Item, key: string): Value {
    Get(Fields(item), StrIndex(key)).GetOr(Null)
  }

  // ------------------------------------------------------------ sequences

  /** `r` keeps some of the elements of `xs`, in their original order. */
  predicate IsSubseq<T(==)>(r: seq<T>, xs: seq<T>)
    decreases |xs|
  {
    if r == [] then true
    else if xs == [] then false
    else (r[0] == xs[0] && IsSubseq(r[1..], xs[1..])) || IsSubseq(r, xs[1..])
  }

  /** The elements of `xs` that satisfy `p`, in order. */
  function FilterSeq<T(!new)>(xs: seq<T>, p: T -> bool): (r: seq<T>)
    ensures IsSubseq(r, xs)
    ensures forall i :: 0 <= i < |r| ==> p(r[i])
    ensures forall i :: 0 <= i < |xs| && p(xs[i]) ==> xs[i] in r
    ensures forall x :: multiset(r)[x] == if p(x) then multiset(xs)[x] else 0
    ensures |r| <= |xs|
    decreases |xs|
  {
    if xs == [] then []
    else
      var rest := FilterSeq(xs[1..], p);
      FilterStep(xs, p, rest);
      if p(xs[0]) then [xs[0]] + rest else rest
  }

  /** One step of `FilterSeq`: what holds of the filtered tail holds of the
      whole once the head is kept or dropped. */
  lemma FilterStep<T(!new)>(xs: seq<T>, p: T -> bool, rest: seq<T>)
    requires xs != [] && IsSubseq(rest, xs[1..])
    requires forall i :: 0 <= i < |rest| ==> p(rest[i])
    requires forall i :: 0 <= i < |xs[1..]| && p(xs[1..][i]) ==> xs[1..][i] in rest
    requires forall x :: multiset(rest)[x] == if p(x) then multiset(xs[1..])[x] else 0
    requires |rest| <= |xs[1..]|
    ensures var r := if p(xs[0]) then [xs[0]] + rest else rest;
      && IsSubseq(r, xs)
      && (forall i :: 0 <= i < |r| ==> p(r[i]))
      && (forall i :: 0 <= i < |xs| && p(xs[i]) ==> xs[i] in r)
      && (forall x :: multiset(r)[x] == if p(x) then multiset(xs)[x] else 0)
      && |r| <= |xs|
  {
    var r := if p(xs[0]) then [xs[0]] + rest else rest;
    assert multiset(xs) == multiset{xs[0]} + multiset(xs[1..]) by {
      assert xs == [xs[0]] + xs[1..];
    }
    forall i | 0 <= i < |xs| && p(xs[i])
      ensures xs[i] in r
    {
      if i > 0 {
        assert xs[i] == xs[1..][i - 1];
      }
    }
    if p(xs[0]) {
      forall i | 0 <= i < |r|
        ensures p(r[i])
      {
        if i > 0 {
          assert r[i] == rest[i - 1];
        }
      }
    }
  }

  /** Filtering distributes over concatenation: the order of the input is kept. */
  lemma {:induction false} FilterConcat<T(!new)>(xs: seq<T>, ys: seq<T>, p: T -> bool)
    ensures FilterSeq(xs + ys, p) == FilterSeq(xs, p) + FilterSeq(ys, p)
    decreases |xs|
  {
    if xs == [] {
      assert xs + ys == ys;
    } else {
      assert (xs + ys)[0] == xs[0];
      assert (xs + ys)[1..] == xs[1..] + ys;
      FilterConcat(xs[1..], ys, p);
    }
  }

  /** The values `f` assigns to the elements of `xs`. */
  function Project<T>(xs: seq<T>, f: T -> Value): (r: seq<Value>)
    ensures |r| == |xs| && forall i :: 0 <= i < |xs| ==> r[i] == f(xs[i])
  {
    if xs == [] then [] else [f(xs[0])] + Project(xs[1..], f)
  }

  // ------------------------------------------------------------ map / filter / first

  /** The next free index of an array built by inserting `es` in order. */
  function NextOf<T>(es: seq<(Key, T)>): (n: int)
    ensures n >= 0
    ensures forall i :: 0 <= i < |es| && es[i].0.IntKey? ==> es[i].0.i < n
    decreases |es|
  {
    if es == [] then 0 else NextAfter(NextOf(es[..|es| - 1]), es[|es| - 1].0)
  }

  /** `map($callback)`: `array_map` over one array keeps every key and its position. */
  function Map<T, U>(c: Collection<T>, f: T -> U): (r: Collection<U>)
    ensures Keys(r.items) == Keys(c.items)
    ensures |Values(r.items)| == |Values(c.items)|
    ensures forall i :: 0 <= i < |Values(c.items)| ==> Values(r.items)[i] == f(Values(c.items)[i])
    ensures Valid(c.items) ==> Valid(r.items)
  {
    var es := c.items.entries;
    var mapped := seq(|es|, i requires 0 <= i < |es| => (es[i].0, f(es[i].1)));
    assert KeysOf(mapped) == KeysOf(es);
    Collection(Arr(mapped, NextOf(mapped)))
  }

  /** Mapping commutes with lookup: the value under a key is the image of the old one. */
  lemma {:induction false} MapLookup<T, U>(es: seq<(Key, T)>, f: T -> U, k: Key)
    ensures Lookup(seq(|es|, i requires 0 <= i < |es| => (es[i].0, f(es[i].1))), k)
         == match Lookup(es, k) case None => None case Some(v) => Some(f(v))
    decreases |es|
  {
    if es != [] {
      var mapped := seq(|es|, i requires 0 <= i < |es| => (es[i].0, f(es[i].1)));
      var tail := es[1..];
      assert mapped[1..] == seq(|tail|, i requires 0 <= i < |tail| => (tail[i].0, f(tail[i].1)));
      MapLookup(tail, f, k);
    }
  }

  lemma MapGet<T, U>(c: Collection<T>, f: T -> U, k: Key)
    ensures Get(Map(c, f).items, k) == match Get(c.items, k) case None => None case Some(v) => Some(f(v))
  {
    MapLookup(c.items.entries, f, k);
  }

  /** `filter($callback)`: `array_values(array_filter(...))`, so the survivors are
      re-indexed 0, 1, 2, ... */
  function Filter<T(!new)>(c: Collection<T>, p: T -> bool): (r: Collection<T>)
    ensures IsList(r.items) && Valid(r.items)
    ensures IsSubseq(Values(r.items), Values(c.items))
    ensures forall i :: 0 <= i < Count(r.items) ==> p(Values(r.items)[i])
    ensures forall i :: 0 <= i < Count(c.items) && p(Values(c.items)[i]) ==> Values(c.items)[i] in Values(r.items)
    ensures forall x :: multiset(Values(r.items))[x] == if p(x) then multiset(Values(c.items))[x] else 0
  {
    Collection(FromList(FilterSeq(Values(c.items), p)))
  }

  /** `first()`: `$this->items[0] ?? null`, a lookup of key 0, not of position 0. */
  function First<T>(c: Collection<T>): (r: Option<T>)
    ensures IsList(c.items) ==> r == if Count(c.items) == 0 then None else Some(Values(c.items)[0])
  {
    if IsList(c.items) && Count(c.items) > 0 then
      assert c.items.entries[0].0 == IntKey(0);
      Get(c.items, IntKey(0))
    else Get(c.items, IntKey(0))
  }

  // ------------------------------------------------------------ unique

  /** `in_array($v, $haystack)` under the comparison `eq` (PHP's loose `==`). */
  predicate InArray(v: Value, hs: seq<Value>, eq: (Value, Value) -> bool) {
    exists j :: 0 <= j < |hs| && eq(v, hs[j])
  }

  /** The filter closure of `unique`: an item is kept when its value is not
      `in_array` of the values kept so far (`seen`), which it then joins. */
  function UniqueFrom<T>(xs: seq<T>, f: T -> Value, eq: (Value, Value) -> bool, seen: seq<Value>): (r: seq<T>)
    ensures IsSubseq(r, xs)
    decreases |xs|
  {
    if xs == [] then []
    else if InArray(f(xs[0]), seen, eq) then UniqueFrom(xs[1..], f, eq, seen)
    else [xs[0]] + UniqueFrom(xs[1..], f, eq, seen + [f(xs[0])])
  }

  /** No survivor's value is `in_array` of the values seen before the scan. */
  lemma {:induction false} UniqueFromFresh<T>(xs: seq<T>, f: T -> Value, eq: (Value, Value) -> bool, seen: seq<Value>)
    ensures forall i :: 0 <= i < |UniqueFrom(xs, f, eq, seen)| ==> !InArray(f(UniqueFrom(xs, f, eq, seen)[i]), seen, eq)
    decreases |xs|
  {
    if xs != [] {
      if InArray(f(xs[0]), seen, eq) {
        UniqueFromFresh(xs[1..], f, eq, seen);
      } else {
        var seen' := seen + [f(xs[0])];
        var rest := UniqueFrom(xs[1..], f, eq, seen');
        UniqueFromFresh(xs[1..], f, eq, seen');
        assert forall j :: 0 <= j < |seen| ==> seen'[j] == seen[j];
      }
    }
  }

  /** No two survivors compare equal, later against earlier. */
  lemma {:induction false} UniqueFromDistinct<T>(xs: seq<T>, f: T -> Value, eq: (Value, Value) -> bool, seen: seq<Value>)
    ensures forall i, j :: 0 <= i < j < |UniqueFrom(xs, f, eq, seen)| ==>
      !eq(f(UniqueFrom(xs, f, eq, seen)[j]), f(UniqueFrom(xs, f, eq, seen)[i]))
    decreases |xs|
  {
    if xs != [] {
      if InArray(f(xs[0]), seen, eq) {
        UniqueFromDistinct(xs[1..], f, eq, seen);
      } else {
        var seen' := seen + [f(xs[0])];
        var rest := UniqueFrom(xs[1..], f, eq, seen');
        UniqueFromDistinct(xs[1..], f, eq, seen');
        UniqueFromFresh(xs[1..], f, eq, seen');
        assert forall j :: 0 <= j < |rest| ==> !eq(f(rest[j]), seen'[|seen|]);
      }
    }
  }

  /** Every element of `xs` was kept or compares equal to a value in `seen` or kept. */
  ghost predicate Covered<T>(xs: seq<T>, r: seq<T>, f: T -> Value, eq: (Value, Value) -> bool, seen: seq<Value>) {
    forall i :: 0 <= i < |xs| ==> xs[i] in r || InArray(f(xs[i]), seen + Project(r, f), eq)
  }

  lemma SeenShift(seen: seq<Value>, v: Value, more: seq<Value>)
    ensures (seen + [v]) + more == seen + ([v] + more)
  {
  }

  lemma ProjectCons<T>(x: T, xs: seq<T>, f: T -> Value)
    ensures Project([x] + xs, f) == [f(x)] + Project(xs, f)
  {
    assert ([x] + xs)[1..] == xs;
  }

  lemma InArrayPrefix(v: Value, hs: seq<Value>, more: seq<Value>, eq: (Value, Value) -> bool)
    requires InArray(v, hs, eq)
    ensures InArray(v, hs + more, eq)
  {
    var j :| 0 <= j < |hs| && eq(v, hs[j]);
    assert (hs + more)[j] == hs[j];
  }

  /** Covering the tail, plus the head, covers the whole input. */
  lemma CoveredCons<T>(xs: seq<T>, r: seq<T>, f: T -> Value, eq: (Value, Value) -> bool, seen: seq<Value>,
                       tailSeen: seq<Value>, tailKept: seq<T>)
    requires xs != [] && Covered(xs[1..], tailKept, f, eq, tailSeen)
    requires tailSeen + Project(tailKept, f) == seen + Project(r, f)
    requires forall t :: t in tailKept ==> t in r
    requires xs[0] in r || InArray(f(xs[0]), seen + Project(r, f), eq)
    ensures Covered(xs, r, f, eq, seen)
  {
    forall i | 1 <= i < |xs|
      ensures xs[i] in r || InArray(f(xs[i]), seen + Project(r, f), eq)
    {
      assert xs[i] == xs[1..][i - 1];
    }
  }

  /** Every dropped element compares equal to a value seen before it or kept. */
  lemma {:induction false} UniqueFromComplete<T>(xs: seq<T>, f: T -> Value, eq: (Value, Value) -> bool, seen: seq<Value>)
    ensures Covered(xs, UniqueFrom(xs, f, eq, seen), f, eq, seen)
    decreases |xs|, 1
  {
    if xs != [] {
      if InArray(f(xs[0]), seen, eq) {
        UniqueFromCompleteDrop(xs, f, eq, seen);
      } else {
        UniqueFromCompleteKeep(xs, f, eq, seen);
      }
    }
  }

  lemma {:induction false} UniqueFromCompleteDrop<T>(xs: seq<T>, f: T -> Value, eq: (Value, Value) -> bool, seen: seq<Value>)
    requires xs != [] && InArray(f(xs[0]), seen, eq)
    ensures Covered(xs, UniqueFrom(xs, f, eq, seen), f, eq, seen)
    decreases |xs|, 0
  {
    var r := UniqueFrom(xs, f, eq, seen);
    var tail := xs[1..];
    assert r == UniqueFrom(tail, f, eq, seen);
    UniqueFromComplete(tail, f, eq, seen);
    InArrayPrefix(f(xs[0]), seen, Project(r, f), eq);
    CoveredCons(xs, r, f, eq, seen, seen, r);
  }

  lemma {:induction false} UniqueFromCompleteKeep<T>(xs: seq<T>, f: T -> Value, eq: (Value, Value) -> bool, seen: seq<Value>)
    requires xs != [] && !InArray(f(xs[0]), seen, eq)
    ensures Covered(xs, UniqueFrom(xs, f, eq, seen), f, eq, seen)
    decreases |xs|, 0
  {
    var r := UniqueFrom(xs, f, eq, seen);
    var tail := xs[1..];
    var seen' := seen + [f(xs[0])];
    var rest := UniqueFrom(tail, f, eq, seen');
    assert r == [xs[0]] + rest;
    ProjectCons(xs[0], rest, f);
    SeenShift(seen, f(xs[0]), Project(rest, f));
    assert forall t :: t in rest ==> t in r;
    assert xs[0] in r;
    UniqueFromComplete(tail, f, eq, seen');
    CoveredCons(xs, r, f, eq, seen, seen', rest);
  }

  /** `unique` with the field read abstracted. */
  function UniqueBy<T>(c: Collection<T>, f: T -> Value, eq: (Value, Value) -> bool): Collection<T> {
    Collection(FromList(UniqueFrom(Values(c.items), f, eq, [])))
  }

  /** `unique($key)`: keeps the first item for each key value, in order, with
      no two survivors comparing equal. The field is read as `Field` does: on a
      model `??` goes through `__get`, since `Models` defines no `__isset`. */
  function Unique(c: Collection<Item>, key: string, eq: (Value, Value) -> bool): (r: Collection<Item>)
    ensures IsList(r.items) && Valid(r.items)
    ensures IsSubseq(Values(r.items), Values(c.items))
    ensures forall i, j :: 0 <= i < j < Count(r.items) ==> !eq(Field(Values(r.items)[j], key), Field(Values(r.items)[i], key))
    ensures forall i :: 0 <= i < Count(c.items) ==>
      Values(c.items)[i] in Values(r.items) || InArray(Field(Values(c.items)[i], key), Project(Values(r.items), x => Field(x, key)), eq)
  {
    var f := (x: Item) => Field(x, key);
    var kept := UniqueFrom(Values(c.items), f, eq, []);
    UniqueFromDistinct(Values(c.items), f, eq, []);
    UniqueFromComplete(Values(c.items), f, eq, []);
    assert [] + Project(kept, f) == Project(kept, f);
    UniqueBy(c, f, eq)
  }

  /** One more element at the end is kept exactly when its value is not
      `in_array` of the values seen and kept before it. */
  lemma {:induction false} UniqueFromSnoc<T>(xs: seq<T>, x: T, f: T -> Value, eq: (Value, Value) -> bool, seen: seq<Value>)
    ensures UniqueFrom(xs + [x], f, eq, seen)
         == UniqueFrom(xs, f, eq, seen) + (if InArray(f(x), seen + Project(UniqueFrom(xs, f, eq, seen), f), eq) then [] else [x])
    decreases |xs|
  {
    if xs == [] {
      assert xs + [x] == [x];
      assert seen + Project([], f) == seen;
    } else {
      assert (xs + [x])[0] == xs[0];
      assert (xs + [x])[1..] == xs[1..] + [x];
      if InArray(f(xs[0]), seen, eq) {
        UniqueFromSnoc(xs[1..], x, f, eq, seen);
      } else {
        var seen' := seen + [f(xs[0])];
        var rest := UniqueFrom(xs[1..], f, eq, seen');
        UniqueFromSnoc(xs[1..], x, f, eq, seen');
        ProjectCons(xs[0], rest, f);
        SeenShift(seen, f(xs[0]), Project(rest, f));
      }
    }
  }

  /** `unique` read prefix by prefix: the item at position i survives exactly
      when its value is not `in_array` of the survivors before it, and nothing
      before it changes. So the first item of each value is the one kept. */
  lemma UniqueKeepsFirst(c: Collection<Item>, key: string, eq: (Value, Value) -> bool)
    ensures var xs := Values(c.items);
      var f := (x: Item) => Field(x, key);
      && Values(Unique(c, key, eq).items) == UniqueFrom(xs, f, eq, [])
      && forall i :: 0 <= i < |xs| ==>
           UniqueFrom(xs[..i + 1], f, eq, [])
           == UniqueFrom(xs[..i], f, eq, []) + (if InArray(f(xs[i]), Project(UniqueFrom(xs[..i], f, eq, []), f), eq) then [] else [xs[i]])
  {
    var xs := Values(c.items);
    var f := (x: Item) => Field(x, key);
    forall i | 0 <= i < |xs|
      ensures UniqueFrom(xs[..i + 1], f, eq, [])
           == UniqueFrom(xs[..i], f, eq, []) + (if InArray(f(xs[i]), Project(UniqueFrom(xs[..i], f, eq, []), f), eq) then [] else [xs[i]])
    {
      assert xs[..i + 1] == xs[..i] + [xs[i]];
      UniqueFromSnoc(xs[..i], xs[i], f, eq, []);
      assert [] + Project(UniqueFrom(xs[..i], f, eq, []), f) == Project(UniqueFrom(xs[..i], f, eq, []), f);
    }
  }

  // ------------------------------------------------------------ sortBy

  /** Insert `x` after every element it does not sort strictly before. */
  function Insert<T>(x: T, ys: seq<T>, cmp: (T, T) -> int): (r: seq<T>)
    ensures multiset(r) == multiset(ys) + multiset{x}
    ensures |r| == |ys| + 1
  {
    if ys == [] then [x]
    else if cmp(x, ys[0]) < 0 then [x] + ys
    else
      assert ys == [ys[0]] + ys[1..];
      [ys[0]] + Insert(x, ys[1..], cmp)
  }

  /** A stable sort: PHP 8's `usort` keeps equal elements in input order. */
  function InsertionSort<T>(xs: seq<T>, cmp: (T, T) -> int): (r: seq<T>)
    ensures multiset(r) == multiset(xs)
    decreases |xs|
  {
    if xs == [] then []
    else
      assert xs == xs[..|xs| - 1] + [xs[|xs| - 1]];
      Insert(xs[|xs| - 1], InsertionSort(xs[..|xs| - 1], cmp), cmp)
  }

  /** `$a <=> $b` answers consistently in both directions. */
  ghost predicate Antisymmetric<T(!new)>(cmp: (T, T) -> int) {
    forall a, b :: cmp(a, b) < 0 <==> cmp(b, a) > 0
  }

  ghost predicate Transitive<T(!new)>(cmp: (T, T) -> int) {
    forall a, b, c :: cmp(a, b) <= 0 && cmp(b, c) <= 0 ==> cmp(a, c) <= 0
  }

  predicate SortedBy<T>(r: seq<T>, cmp: (T, T) -> int) {
    forall i, j :: 0 <= i < j < |r| ==> cmp(r[i], r[j]) <= 0
  }

  /** Every element of `Insert(x, ys)` is `x` or an element of `ys`. */
  lemma InsertFrom<T>(x: T, ys: seq<T>, cmp: (T, T) -> int, e: T)
    requires e in Insert(x, ys, cmp)
    ensures e == x || e in ys
  {
    assert e in multiset(Insert(x, ys, cmp));
  }

  /** `x` sorts before every element of a sorted `ys` that it sorts before the head of. */
  lemma InsertAtFront<T(!new)>(x: T, ys: seq<T>, cmp: (T, T) -> int)
    requires Transitive(cmp) && SortedBy(ys, cmp)
    requires ys != [] && cmp(x, ys[0]) < 0
    ensures SortedBy([x] + ys, cmp)
  {
    var r := [x] + ys;
    forall i, j | 0 <= i < j < |r|
      ensures cmp(r[i], r[j]) <= 0
    {
      if i == 0 {
        if j > 1 {
          assert cmp(ys[0], ys[j - 1]) <= 0;
        }
      } else {
        assert r[i] == ys[i - 1] && r[j] == ys[j - 1];
      }
    }
  }

  /** A head that sorts no later than `x` and than every element of the sorted
      `rest` can be put in front. */
  lemma PrependSorted<T>(y: T, rest: seq<T>, cmp: (T, T) -> int)
    requires SortedBy(rest, cmp)
    requires forall j :: 0 <= j < |rest| ==> cmp(y, rest[j]) <= 0
    ensures SortedBy([y] + rest, cmp)
  {
    var r := [y] + rest;
    forall i, j | 0 <= i < j < |r|
      ensures cmp(r[i], r[j]) <= 0
    {
      if i == 0 {
        assert r[j] == rest[j - 1];
      } else {
        assert r[i] == rest[i - 1] && r[j] == rest[j - 1];
      }
    }
  }

  lemma SortedTail<T>(ys: seq<T>, cmp: (T, T) -> int)
    requires ys != [] && SortedBy(ys, cmp)
    ensures SortedBy(ys[1..], cmp)
    ensures forall j :: 0 <= j < |ys[1..]| ==> cmp(ys[0], ys[1..][j]) <= 0
  {
    var tail := ys[1..];
    forall i, j | 0 <= i < j < |tail|
      ensures cmp(tail[i], tail[j]) <= 0
    {
      assert tail[i] == ys[i + 1] && tail[j] == ys[j + 1];
    }
  }

  lemma {:induction false} InsertSorted<T(!new)>(x: T, ys: seq<T>, cmp: (T, T) -> int)
    requires Antisymmetric(cmp) && Transitive(cmp) && SortedBy(ys, cmp)
    ensures SortedBy(Insert(x, ys, cmp), cmp)
    decreases |ys|
  {
    if ys == [] {
    } else if cmp(x, ys[0]) >= 0 {
      var y := ys[0];
      var tail := ys[1..];
      var rest := Insert(x, tail, cmp);
      SortedTail(ys, cmp);
      InsertSorted(x, tail, cmp);
      assert cmp(y, x) <= 0;
      forall j | 0 <= j < |rest|
        ensures cmp(y, rest[j]) <= 0
      {
        InsertFrom(x, tail, cmp, rest[j]);
        if rest[j] != x {
          var m :| 0 <= m < |tail| && tail[m] == rest[j];
        }
      }
      PrependSorted(y, rest, cmp);
    } else {
      InsertAtFront(x, ys, cmp);
    }
  }

  lemma {:induction false} InsertionSortSorted<T(!new)>(xs: seq<T>, cmp: (T, T) -> int)
    requires Antisymmetric(cmp) && Transitive(cmp)
    ensures SortedBy(InsertionSort(xs, cmp), cmp)
    decreases |xs|
  {
    if xs != [] {
      InsertionSortSorted(xs[..|xs| - 1], cmp);
      InsertSorted(xs[|xs| - 1], InsertionSort(xs[..|xs| - 1], cmp), cmp);
    }
  }

  /** The comparator `sortBy` hands to `usort`: `$valA <=> $valB` when the
      direction is exactly 'asc', `$valB <=> $valA` for anything else. */
  function SortComparator(key: string, direction: string, cmp: (Value, Value) -> int): (Item, Item) -> int {
    (a: Item, b: Item) =>
      if direction == "asc" then cmp(Field(a, key), Field(b, key)) else cmp(Field(b, key), Field(a, key))
  }

  /** `sortBy($key, $direction)`: a re-indexed permutation of the items. */
  function SortBy(c: Collection<Item>, key: string, direction: string, cmp: (Value, Value) -> int): (r: Collection<Item>)
    ensures IsList(r.items) && Valid(r.items)
    ensures multiset(Values(r.items)) == multiset(Values(c.items))
  {
    Collection(FromList(InsertionSort(Values(c.items), SortComparator(key, direction, cmp))))
  }

  /** Under a consistent `<=>`, `sortBy` orders by the key: ascending for 'asc',
      descending for every other direction (including 'ASC' and 'desc'). */
  lemma SortByOrdered(c: Collection<Item>, key: string, direction: string, cmp: (Value, Value) -> int)
    requires Antisymmetric(cmp) && Transitive(cmp)
    ensures var vs := Values(SortBy(c, key, direction, cmp).items);
      forall i, j :: 0 <= i < j < |vs| ==>
        if direction == "asc" then cmp(Field(vs[i], key), Field(vs[j], key)) <= 0
        else cmp(Field(vs[j], key), Field(vs[i], key)) <= 0
  {
    var order := SortComparator(key, direction, cmp);
    assert Antisymmetric(order) by {
      forall a: Item, b: Item
        ensures order(a, b) < 0 <==> order(b, a) > 0
      {
        if direction == "asc" {
          assert order(a, b) == cmp(Field(a, key), Field(b, key));
          assert order(b, a) == cmp(Field(b, key), Field(a, key));
        } else {
          assert order(a, b) == cmp(Field(b, key), Field(a, key));
          assert order(b, a) == cmp(Field(a, key), Field(b, key));
        }
      }
    }
    assert Transitive(order) by {
      forall a: Item, b: Item, d: Item | order(a, b) <= 0 && order(b, d) <= 0
        ensures order(a, d) <= 0
      {
        if direction == "asc" {
          assert cmp(Field(a, key), Field(b, key)) <= 0 && cmp(Field(b, key), Field(d, key)) <= 0;
        } else {
          assert cmp(Field(d, key), Field(b, key)) <= 0 && cmp(Field(b, key), Field(a, key)) <= 0;
        }
      }
    }
    InsertionSortSorted(Values(c.items), order);
  }

  // ------------------------------------------------------------ pluck

  /** `pluck($key)`: one value per item, under the item's key, read as `Field`
      does (`$item->$key ?? null` reaches a model's `__get`). */
  function Pluck(c: Collection<Item>, key: string): (r: Collection<Value>)
    ensures Keys(r.items) == Keys(c.items)
    ensures |Values(r.items)| == |Values(c.items)|
    ensures forall i :: 0 <= i < |Values(c.items)| ==>
      Values(r.items)[i] == Get(Fields(Values(c.items)[i]), StrIndex(key)).GetOr(Null)
  {
    Map(c, (x: Item) => Field(x, key))
  }

  // ------------------------------------------------------------ groupBy

  /** The key an item is grouped under: `$grouped[$item->$key]` casts the value. */
  function GroupKey(item: Item, key: string): Key {
    CastKey(Field(item, key))
  }

  function InGroup(key: string, k: Key): Item -> bool {
    (x: Item) => GroupKey(x, key) == k
  }

  /** The `foreach` of `groupBy` over the first `|xs|` items. */
  function GroupInto(xs: seq<Item>, key: string): (g: Arr<Arr<Item>>)
    ensures Valid(g)
    decreases |xs|
  {
    if xs == [] then Empty()
    else
      var acc := GroupInto(xs[..|xs| - 1], key);
      var x := xs[|xs| - 1];
      var k := GroupKey(x, key);
      Set(acc, k, Push(Get(acc, k).GetOr(Empty()), x))
  }

  /** `groupBy($key)`: one group per distinct key, groups in order of first appearance. */
  function GroupBy(c: Collection<Item>, key: string): Collection<Arr<Item>> {
    Collection(GroupInto(Values(c.items), key))
  }

  /** Each group holds exactly the items with its key, in input order, as a list;
      a key no item has has no group. */
  lemma {:induction false} GroupIntoMembers(xs: seq<Item>, key: string, k: Key)
    ensures var members := FilterSeq(xs, InGroup(key, k));
      Get(GroupInto(xs, key), k) == if members == [] then None else Some(FromList(members))
    decreases |xs|
  {
    if xs != [] {
      var p := xs[..|xs| - 1];
      var x := xs[|xs| - 1];
      var q := InGroup(key, k);
      assert xs == p + [x];
      GroupIntoMembers(p, key, k);
      FilterConcat(p, [x], q);
      var acc := GroupInto(p, key);
      var kx := GroupKey(x, key);
      var g := Push(Get(acc, kx).GetOr(Empty()), x);
      assert GroupInto(xs, key) == Set(acc, kx, g);
      var mp := FilterSeq(p, q);
      if kx == k {
        assert FilterSeq([x], q) == [x];
        assert Get(acc, k).GetOr(Empty()) == FromList(mp);
        PushOntoList(mp, x);
      } else {
        assert FilterSeq([x], q) == [];
        assert FilterSeq(xs, q) == mp;
      }
    }
  }

  /** The groups partition the items: every item sits in the group of its key,
      and that is the only group that can hold it. */
  lemma GroupByPartition(c: Collection<Item>, key: string)
    ensures forall i :: 0 <= i < |Values(c.items)| ==>
      var x := Values(c.items)[i];
      var g := Get(GroupBy(c, key).items, GroupKey(x, key));
      g.Some? && x in Values(g.value)
    ensures forall k, x :: (var g := Get(GroupBy(c, key).items, k); g.Some? && x in Values(g.value)) ==> GroupKey(x, key) == k
  {
    var xs := Values(c.items);
    forall i | 0 <= i < |xs|
      ensures var g := Get(GroupBy(c, key).items, GroupKey(xs[i], key)); g.Some? && xs[i] in Values(g.value)
    {
      GroupIntoMembers(xs, key, GroupKey(xs[i], key));
    }
    forall k, x | var g := Get(GroupBy(c, key).items, k); g.Some? && x in Values(g.value)
      ensures GroupKey(x, key) == k
    {
      GroupIntoMembers(xs, key, k);
      var members := FilterSeq(xs, InGroup(key, k));
      var j :| 0 <= j < |members| && members[j] == x;
      assert InGroup(key, k)(members[j]);
    }
  }

  // ------------------------------------------------------------ count / isEmpty / all / offsets

  function CountItems<T>(c: Collection<T>): nat {
    Count(c.items)
  }

  /** `isEmpty()`: `empty($this->items)`. */
  function IsEmpty<T>(c: Collection<T>): (r: bool)
    ensures r <==> CountItems(c) == 0
  {
    c.items.entries == []
  }

  function All<T>(c: Collection<T>): Arr<T> {
    c.items
  }

  /** `offsetExists($offset)`: `isset($this->items[$offset])`, false for a null item. */
  function OffsetExists<T>(c: Collection<T>, offset: Value, isNull: T -> bool): (r: bool)
    ensures r <==> Get(c.items, CastKey(offset)).Some? && !isNull(Get(c.items, CastKey(offset)).value)
  {
    match Get(c.items, CastKey(offset))
    case None => false
    case Some(v) => !isNull(v)
  }

  /** `offsetGet($offset)`: `$this->items[$offset] ?? null`, with `None` for null. */
  function OffsetGet<T>(c: Collection<T>, offset: Value): Option<T> {
    Get(c.items, CastKey(offset))
  }

  /** `offsetSet($offset, $value)`: a null offset appends. */
  function OffsetSet<T>(c: Collection<T>, offset: Value, v: T): (r: Collection<T>)
    ensures offset != Null ==> OffsetGet(r, offset) == Some(v)
    ensures offset == Null && Valid(c.items) ==> Values(r.items) == Values(c.items) + [v]
    ensures Valid(c.items) ==> Valid(r.items)
  {
    if offset == Null then Collection(Push(c.items, v)) else Collection(Set(c.items, CastKey(offset), v))
  }

  /** `offsetUnset($offset)`. */
  function OffsetUnset<T>(c: Collection<T>, offset: Value): (r: Collection<T>)
    ensures Valid(c.items) ==> OffsetGet(r, offset).None? && Valid(r.items)
    ensures Valid(c.items) ==> forall k :: k != CastKey(offset) ==> Get(r.items, k) == Get(c.items, k)
  {
    Collection(Unset(c.items, CastKey(offset)))
  }
}
