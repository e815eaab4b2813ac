/** PHP's ordered array, the one collection type the framework is built on:
    query bindings, model attributes, collection items, the route table, the
    validator's error map.

    An array is a sequence of (key, value) entries in insertion order plus the
    next free integer index that `$a[] = $v` uses. Writing to an existing key
    keeps its position; writing a new key appends; `unset` removes the entry but
    does not lower the next free index. */
module Arrays {
  import opened Wrappers
  import opened Php

  datatype Arr<T> = Arr(entries: seq<(Key, T)>, next: int)

  function Empty<T>(): (r: Arr<T>)
    ensures Valid(r)
  {
    Arr([], 0)
  }

  function KeysOf<T>(es: seq<(Key, T)>): (ks: seq<Key>)
    ensures |ks| == |es| && forall i :: 0 <= i < |es| ==> ks[i] == es[i].0
  {
    if es == [] then [] else [es[0].0] + KeysOf(es[1..])
  }

  function ValuesOf<T>(es: seq<(Key, T)>): (vs: seq<T>)
    ensures |vs| == |es| && forall i :: 0 <= i < |es| ==> vs[i] == es[i].1
  {
    if es == [] then [] else [es[0].1] + ValuesOf(es[1..])
  }

  lemma KeysOfAppend<T>(x: seq<(Key, T)>, y: seq<(Key, T)>)
    ensures KeysOf(x + y) == KeysOf(x) + KeysOf(y)
  {
    assert forall i :: 0 <= i < |x + y| ==> KeysOf(x + y)[i] == (KeysOf(x) + KeysOf(y))[i];
  }

  /** `array_keys($a)`. */
  function Keys<T>(a: Arr<T>): seq<Key> {
    KeysOf(a.entries)
  }

  /** `array_values($a)`. */
  function Values<T>(a: Arr<T>): seq<T> {
    ValuesOf(a.entries)
  }

  /** `count($a)`. */
  function Count<T>(a: Arr<T>): nat {
    |a.entries|
  }

  predicate Distinct<K(==)>(ks: seq<K>) {
    forall i, j :: 0 <= i < j < |ks| ==> ks[i] != ks[j]
  }

  /** What every array PHP can build satisfies: distinct, well-formed keys, and
      a next free index above every integer key. */
  predicate Valid<T>(a: Arr<T>) {
    ValidEntries(a.entries, a.next)
  }

  predicate ValidEntries<T>(es: seq<(Key, T)>, next: int) {
    && Distinct(KeysOf(es))
    && next >= 0
    && (forall i :: 0 <= i < |es| ==> ValidKey(es[i].0))
    && (forall i :: 0 <= i < |es| && es[i].0.IntKey? ==> es[i].0.i < next)
  }

  /** The value stored under `k`; `None` when there is no such entry. */
  function Lookup<T>(es: seq<(Key, T)>, k: Key): (r: Option<T>)
    ensures r.None? <==> k !in KeysOf(es)
  {
    if es == [] then None else if es[0].0 == k then Some(es[0].1) else Lookup(es[1..], k)
  }

  /** `$a[$k] ?? null`, with `None` for null. */
  function Get<T>(a: Arr<T>, k: Key): Option<T> {
    Lookup(a.entries, k)
  }

  /** Entry-level assignment: replace in place or append. */
  function Upsert<T>(es: seq<(Key, T)>, k: Key, v: T): (r: seq<(Key, T)>)
    ensures k !in KeysOf(es) ==> r == es + [(k, v)]
    ensures k in KeysOf(es) ==> KeysOf(r) == KeysOf(es)
  {
    if es == [] then [(k, v)]
    else if es[0].0 == k then [(k, v)] + es[1..]
    else
      assert KeysOf(es) == [es[0].0] + KeysOf(es[1..]);
      [es[0]] + Upsert(es[1..], k, v)
  }

  /** After an upsert `k` holds `v` and every other key holds what it held. */
  lemma {:induction false} UpsertLookup<T>(es: seq<(Key, T)>, k: Key, v: T, k': Key)
    ensures Lookup(Upsert(es, k, v), k') == if k' == k then Some(v) else Lookup(es, k')
  {
    if es != [] && es[0].0 != k {
      var r := Upsert(es, k, v);
      assert r[0] == es[0] && r[1..] == Upsert(es[1..], k, v);
      UpsertLookup(es[1..], k, v, k');
    }
  }

  /** The next free index after writing key `k`. */
  function NextAfter(next: int, k: Key): int {
    if k.IntKey? && k.i >= next then k.i + 1 else next
  }

  lemma UpsertValid<T>(es: seq<(Key, T)>, next: int, k: Key, v: T)
    requires ValidEntries(es, next) && ValidKey(k)
    ensures ValidEntries(Upsert(es, k, v), NextAfter(next, k))
  {
    var r := Upsert(es, k, v);
    if k in KeysOf(es) {
      forall i | 0 <= i < |r|
        ensures r[i].0 == es[i].0
      {
        assert r[i].0 == KeysOf(r)[i] == KeysOf(es)[i];
      }
    } else {
      assert r == es + [(k, v)];
      assert KeysOf(r) == KeysOf(es) + [k];
      forall i, j | 0 <= i < j < |r|
        ensures KeysOf(r)[i] != KeysOf(r)[j]
      {
        if j < |es| {
          assert KeysOf(r)[i] == KeysOf(es)[i] && KeysOf(r)[j] == KeysOf(es)[j];
        }
      }
    }
  }

  /** `$a[$k] = $v`. */
  function Set<T>(a: Arr<T>, k: Key, v: T): (r: Arr<T>)
    ensures Get(r, k) == Some(v)
    ensures forall k' :: k' != k ==> Get(r, k') == Get(a, k')
    ensures k in Keys(a) ==> Keys(r) == Keys(a)
    ensures k !in Keys(a) ==> r.entries == a.entries + [(k, v)]
    ensures Valid(a) && ValidKey(k) ==> Valid(r)
    ensures r.next == NextAfter(a.next, k)
  {
    var r := Arr(Upsert(a.entries, k, v), NextAfter(a.next, k));
    UpsertLookup(a.entries, k, v, k);
    assert forall k' :: k' != k ==> Get(r, k') == Get(a, k') by {
      forall k' | k' != k
        ensures Get(r, k') == Get(a, k')
      {
        UpsertLookup(a.entries, k, v, k');
      }
    }
    if Valid(a) && ValidKey(k) then UpsertValid(a.entries, a.next, k, v); r
    else r
  }

  /** Writing a string key keeps every key of the array a string. */
  lemma {:induction false} UpsertStrKeys<T>(es: seq<(Key, T)>, k: Key, v: T)
    requires AllStrKeys(es) && k.StrKey?
    ensures AllStrKeys(Upsert(es, k, v))
  {
    if es != [] && es[0].0 != k {
      assert AllStrKeys(es[1..]) by {
        forall i | 0 <= i < |es[1..]| ensures es[1..][i].0.StrKey? {
          assert es[1..][i] == es[i + 1];
        }
      }
      UpsertStrKeys(es[1..], k, v);
      var r := Upsert(es, k, v);
      forall i | 0 <= i < |r| ensures r[i].0.StrKey? {
        if i > 0 {
          assert r[i] == Upsert(es[1..], k, v)[i - 1];
        }
      }
    } else if es != [] {
      var r := Upsert(es, k, v);
      forall i | 0 <= i < |r| ensures r[i].0.StrKey? {
        if i > 0 {
          assert r[i] == es[i];
        }
      }
    }
  }

  lemma SetStrKeys<T>(a: Arr<T>, k: Key, v: T)
    requires AllStrKeys(a.entries) && k.StrKey?
    ensures AllStrKeys(Set(a, k, v).entries)
  {
    UpsertStrKeys(a.entries, k, v);
  }

  /** `$a[] = $v`. */
  function Push<T>(a: Arr<T>, v: T): (r: Arr<T>)
    ensures r.next == a.next + 1
    ensures IntKey(a.next) !in Keys(a) ==> r.entries == a.entries + [(IntKey(a.next), v)]
    ensures Valid(a) ==> r.entries == a.entries + [(IntKey(a.next), v)]
    ensures Valid(a) ==> Valid(r) && Values(r) == Values(a) + [v]
  {
    if Valid(a) then
      NextIsFresh(a);
      ValuesOfAppend(a.entries, (IntKey(a.next), v));
      Set(a, IntKey(a.next), v)
    else Set(a, IntKey(a.next), v)
  }

  /** The next free index is never a key of a valid array. */
  lemma NextIsFresh<T>(a: Arr<T>)
    requires Valid(a)
    ensures IntKey(a.next) !in Keys(a)
  {
    forall i | 0 <= i < |a.entries|
      ensures KeysOf(a.entries)[i] != IntKey(a.next)
    {
    }
  }

  lemma ValuesOfAppend<T>(es: seq<(Key, T)>, e: (Key, T))
    ensures ValuesOf(es + [e]) == ValuesOf(es) + [e.1]
  {
  }

  /** The position of the first entry with key `k`, or the length when there is none. */
  function IndexOfKey<T>(es: seq<(Key, T)>, k: Key): (r: nat)
    ensures r <= |es|
    ensures r < |es| ==> es[r].0 == k
    ensures forall j :: 0 <= j < r ==> es[j].0 != k
  {
    if es == [] then 0 else if es[0].0 == k then 0 else 1 + IndexOfKey(es[1..], k)
  }

  lemma {:induction false} LookupConcat<T>(x: seq<(Key, T)>, y: seq<(Key, T)>, k: Key)
    ensures Lookup(x + y, k) == if k in KeysOf(x) then Lookup(x, k) else Lookup(y, k)
  {
    if x != [] {
      assert (x + y)[0] == x[0];
      assert (x + y)[1..] == x[1..] + y;
      assert KeysOf(x) == [x[0].0] + KeysOf(x[1..]);
      LookupConcat(x[1..], y, k);
    } else {
      assert x + y == y;
    }
  }

  lemma RemoveAtLookup<T>(es: seq<(Key, T)>, i: nat, k: Key)
    requires i < |es| && k != es[i].0
    ensures Lookup(es[..i] + es[i + 1..], k) == Lookup(es, k)
  {
    var x := es[..i];
    var y := es[i + 1..];
    assert es == x + ([es[i]] + y);
    LookupConcat(x, y, k);
    LookupConcat(x, [es[i]] + y, k);
    LookupConcat([es[i]], y, k);
  }

  /** Removing the entry at index `i` leaves every other key's value alone. */
  lemma RemoveAtKeeps<T>(es: seq<(Key, T)>, i: nat)
    requires i < |es|
    ensures forall k' :: k' != es[i].0 ==> Lookup(es[..i] + es[i + 1..], k') == Lookup(es, k')
  {
    forall k' | k' != es[i].0
      ensures Lookup(es[..i] + es[i + 1..], k') == Lookup(es, k')
    {
      RemoveAtLookup(es, i, k');
    }
  }

  /** Removing the entry at index `i` keeps the array valid and forgets its key. */
  lemma RemoveAtValid<T>(es: seq<(Key, T)>, next: int, i: nat)
    requires ValidEntries(es, next) && i < |es|
    ensures ValidEntries(es[..i] + es[i + 1..], next)
    ensures Lookup(es[..i] + es[i + 1..], es[i].0).None?
  {
    var r := es[..i] + es[i + 1..];
    assert forall j :: 0 <= j < |r| ==> r[j] == es[Skip(j, i)];
    forall a, b | 0 <= a < b < |r|
      ensures KeysOf(r)[a] != KeysOf(r)[b]
    {
      assert KeysOf(es)[Skip(a, i)] != KeysOf(es)[Skip(b, i)];
    }
    forall j | 0 <= j < |r|
      ensures ValidKey(r[j].0) && (r[j].0.IntKey? ==> r[j].0.i < next)
      ensures KeysOf(r)[j] != es[i].0
    {
      assert KeysOf(es)[Skip(j, i)] != KeysOf(es)[i];
    }
  }

  /** Index `j` of a sequence with index `i` removed, as an index of the original. */
  function Skip(j: nat, i: nat): (r: nat)
    ensures r != i
  {
    if j < i then j else j + 1
  }

  /** `unset($a[$k])`: the next free index is left as it was. */
  function Unset<T>(a: Arr<T>, k: Key): (r: Arr<T>)
    ensures Valid(a) ==> Valid(r) && Get(r, k).None?
    ensures Valid(a) ==> forall k' :: k' != k ==> Get(r, k') == Get(a, k')
  {
    var i := IndexOfKey(a.entries, k);
    if i == |a.entries| then a
    else if Valid(a) then
      RemoveAtValid(a.entries, a.next, i);
      RemoveAtKeeps(a.entries, i);
      Arr(a.entries[..i] + a.entries[i + 1..], a.next)
    else Arr(a.entries[..i] + a.entries[i + 1..], a.next)
  }

  /** The array literal `[x0, x1, ...]`, which is also what `array_values` builds. */
  function FromList<T>(xs: seq<T>): (r: Arr<T>)
    ensures Valid(r) && Values(r) == xs && IsList(r)
  {
    Arr(seq(|xs|, i requires 0 <= i < |xs| => (IntKey(i), xs[i])), |xs|)
  }

  /** The keys are exactly 0, 1, ..., count - 1 in order. */
  predicate IsList<T>(a: Arr<T>) {
    && a.next == |a.entries|
    && forall i :: 0 <= i < |a.entries| ==> a.entries[i].0 == IntKey(i)
  }

  lemma ListIsFromList<T>(a: Arr<T>)
    requires IsList(a)
    ensures a == FromList(Values(a))
  {
  }

  /** Pushing onto a list gives the list one longer. */
  lemma PushOntoList<T>(xs: seq<T>, v: T)
    ensures Push(FromList(xs), v) == FromList(xs + [v])
  {
    var f := FromList(xs);
    assert Valid(f);
    FromListSnoc(xs, v);
  }

  lemma FromListSnoc<T>(xs: seq<T>, v: T)
    ensures FromList(xs).entries + [(IntKey(|xs|), v)] == FromList(xs + [v]).entries
  {
    var f := FromList(xs).entries;
    var g := FromList(xs + [v]).entries;
    forall i | 0 <= i < |g|
      ensures (f + [(IntKey(|xs|), v)])[i] == g[i]
    {
    }
  }

  // ------------------------------------------------------------ assignment of many entries

  /** `foreach ($data as $k => $v) { $a[$k] = $v; }`. */
  function SetAll<T>(a: Arr<T>, es: seq<(Key, T)>): (r: Arr<T>)
    decreases |es|
  {
    if es == [] then a else Set(SetAll(a, es[..|es| - 1]), es[|es| - 1].0, es[|es| - 1].1)
  }

  /** After assigning a batch with distinct keys, a key of the batch holds the
      batch's value and every other key holds what it held before. */
  lemma {:induction false} GetSetAll<T>(a: Arr<T>, es: seq<(Key, T)>, k: Key)
    requires Distinct(KeysOf(es))
    ensures Get(SetAll(a, es), k) == if k in KeysOf(es) then Lookup(es, k) else Get(a, k)
    decreases |es|
  {
    if es != [] {
      var p := es[..|es| - 1];
      var last := es[|es| - 1];
      assert es == p + [last];
      assert KeysOf(es) == KeysOf(p) + [last.0];
      assert Distinct(KeysOf(p));
      GetSetAll(a, p, k);
      LookupAppend(p, last, k);
    }
  }

  lemma {:induction false} LookupAppend<T>(es: seq<(Key, T)>, e: (Key, T), k: Key)
    ensures Lookup(es + [e], k) == if k in KeysOf(es) then Lookup(es, k) else if k == e.0 then Some(e.1) else None
  {
    if es != [] {
      assert (es + [e])[1..] == es[1..] + [e];
      assert KeysOf(es) == [es[0].0] + KeysOf(es[1..]);
      LookupAppend(es[1..], e, k);
    }
  }

  lemma SetAllValid<T>(a: Arr<T>, es: seq<(Key, T)>)
    requires Valid(a) && forall i :: 0 <= i < |es| ==> ValidKey(es[i].0)
    ensures Valid(SetAll(a, es))
    decreases |es|
  {
    if es != [] {
      SetAllValid(a, es[..|es| - 1]);
    }
  }

  /** Assigning a batch with distinct keys to an empty array gives the batch
      itself, in order. */
  lemma {:induction false} SetAllFresh<T>(es: seq<(Key, T)>)
    requires Distinct(KeysOf(es))
    ensures SetAll(Empty(), es).entries == es
    decreases |es|
  {
    if es != [] {
      var p := es[..|es| - 1];
      var last := es[|es| - 1];
      assert es == p + [last];
      assert KeysOf(es) == KeysOf(p) + [last.0];
      assert Distinct(KeysOf(p));
      SetAllFresh(p);
      assert last.0 !in KeysOf(p) by {
        assert forall i :: 0 <= i < |p| ==> KeysOf(p)[i] == KeysOf(es)[i];
      }
    }
  }

  // ------------------------------------------------------------ array_merge

  /** Number of integer-keyed entries. */
  function IntCount<T>(es: seq<(Key, T)>): nat {
    if es == [] then 0 else IntCount(es[..|es| - 1]) + (if es[|es| - 1].0.IntKey? then 1 else 0)
  }

  /** Integer keys are 0, 1, 2, ... in order of appearance: the shape every
      array has that was built only from `[] =` pushes and string-keyed writes. */
  predicate DenseEntries<T>(es: seq<(Key, T)>) {
    forall i :: 0 <= i < |es| && es[i].0.IntKey? ==> es[i].0.i == IntCount(es[..i])
  }

  predicate Dense<T>(a: Arr<T>) {
    Distinct(Keys(a)) && DenseEntries(a.entries) && a.next == IntCount(a.entries)
  }

  predicate AllStrKeys<T>(es: seq<(Key, T)>) {
    forall i :: 0 <= i < |es| ==> es[i].0.StrKey?
  }

  lemma AllStrKeysAppend<T>(xs: seq<(Key, T)>, ys: seq<(Key, T)>)
    requires AllStrKeys(xs) && AllStrKeys(ys)
    ensures AllStrKeys(xs + ys)
  {
    forall i | 0 <= i < |xs + ys|
      ensures (xs + ys)[i].0.StrKey?
    {
      if i >= |xs| {
        assert (xs + ys)[i] == ys[i - |xs|];
      }
    }
  }

  function MergeStep<T>(acc: Arr<T>, e: (Key, T)): Arr<T> {
    if e.0.IntKey? then Push(acc, e.1) else Set(acc, e.0, e.1)
  }

  function MergeInto<T>(acc: Arr<T>, es: seq<(Key, T)>): Arr<T>
    decreases |es|
  {
    if es == [] then acc else MergeInto(MergeStep(acc, es[0]), es[1..])
  }

  /** `array_merge($a, $b)`: integer keys of both arrays are renumbered from 0,
      a string key of `$b` overwrites the same key of `$a` in place. */
  function Merge<T>(a: Arr<T>, b: Arr<T>): Arr<T> {
    MergeInto(Empty(), a.entries + b.entries)
  }

  lemma {:induction false} IntCountStrings<T>(xs: seq<(Key, T)>, ys: seq<(Key, T)>)
    requires AllStrKeys(ys)
    ensures IntCount(xs + ys) == IntCount(xs)
    decreases |ys|
  {
    if ys != [] {
      var p := ys[..|ys| - 1];
      assert (xs + ys)[..|xs + ys| - 1] == xs + p;
      assert (xs + ys)[|xs + ys| - 1] == ys[|ys| - 1];
      assert AllStrKeys(p);
      IntCountStrings(xs, p);
      assert IntCount(xs + ys) == IntCount(xs + p);
    } else {
      assert xs + ys == xs;
    }
  }

  lemma {:induction false} IntCountAfterStrings<T>(xs: seq<(Key, T)>, ys: seq<(Key, T)>)
    requires AllStrKeys(xs)
    ensures IntCount(xs + ys) == IntCount(ys)
    decreases |ys|
  {
    if ys == [] {
      assert xs + ys == xs;
      IntCountStrings([], xs);
      assert [] + xs == xs;
    } else {
      var p := ys[..|ys| - 1];
      assert (xs + ys)[..|xs + ys| - 1] == xs + p;
      IntCountAfterStrings(xs, p);
    }
  }

  /** The merge loop, started on a prefix of a dense array with distinct keys,
      appends the rest of the entries unchanged. */
  lemma {:induction false} MergeIntoAppends<T>(q: seq<(Key, T)>, n: nat)
    requires n <= |q| && Distinct(KeysOf(q)) && DenseEntries(q)
    ensures MergeInto(Arr(q[..n], IntCount(q[..n])), q[n..]) == Arr(q, IntCount(q))
    decreases |q| - n
  {
    if n == |q| {
      assert q[..n] == q;
    } else {
      PrefixFresh(q, n);
      assert q[n].0.IntKey? ==> q[n].0.i == IntCount(q[..n]);
      MergeStepPrefix(q, n);
      assert q[n..][1..] == q[n + 1..];
      MergeIntoAppends(q, n + 1);
    }
  }

  /** One step of the merge loop on a prefix appends the next entry. */
  lemma MergeStepPrefix<T>(q: seq<(Key, T)>, n: nat)
    requires n < |q| && q[n].0 !in KeysOf(q[..n])
    requires q[n].0.IntKey? ==> q[n].0.i == IntCount(q[..n])
    ensures MergeStep(Arr(q[..n], IntCount(q[..n])), q[n]) == Arr(q[..n + 1], IntCount(q[..n + 1]))
  {
    MergeStepAppends(Arr(q[..n], IntCount(q[..n])), q[n]);
    PrefixExtend(q, n);
  }

  /** The prefix of length `n + 1`, as an array with its integer count. */
  lemma PrefixExtend<T>(q: seq<(Key, T)>, n: nat)
    requires n < |q|
    ensures Arr(q[..n] + [q[n]], IntCount(q[..n]) + (if q[n].0.IntKey? then 1 else 0)) == Arr(q[..n + 1], IntCount(q[..n + 1]))
  {
    assert q[..n + 1][..n] == q[..n];
    assert q[..n + 1] == q[..n] + [q[n]];
  }

  /** The key at `n` of a sequence with distinct keys is not among the first `n`. */
  lemma PrefixFresh<T>(q: seq<(Key, T)>, n: nat)
    requires n < |q| && Distinct(KeysOf(q))
    ensures q[n].0 !in KeysOf(q[..n])
  {
    forall i | 0 <= i < n
      ensures KeysOf(q[..n])[i] != q[n].0
    {
      assert KeysOf(q)[i] != KeysOf(q)[n];
    }
  }

  /** A merge step with a key the accumulator lacks (and, for an integer key,
      the next free one) appends the entry. */
  lemma MergeStepAppends<T>(acc: Arr<T>, e: (Key, T))
    requires e.0 !in Keys(acc)
    requires e.0.IntKey? ==> e.0 == IntKey(acc.next)
    ensures MergeStep(acc, e) == Arr(acc.entries + [e], acc.next + (if e.0.IntKey? then 1 else 0))
  {
  }

  /** `array_merge` of a dense array and an array of fresh string keys is plain
      concatenation. */
  lemma MergeFreshStrings<T>(a: Arr<T>, b: Arr<T>)
    requires Dense(a) && AllStrKeys(b.entries)
    requires Distinct(KeysOf(a.entries + b.entries))
    ensures Merge(a, b) == Arr(a.entries + b.entries, a.next)
  {
    var q := a.entries + b.entries;
    assert DenseEntries(q) by {
      forall i | 0 <= i < |q| && q[i].0.IntKey?
        ensures q[i].0.i == IntCount(q[..i])
      {
        assert i < |a.entries|;
        assert q[..i] == a.entries[..i];
      }
    }
    assert q[..0] == [];
    assert q[0..] == q;
    MergeIntoAppends(q, 0);
    IntCountStrings(a.entries, b.entries);
  }

  /** `array_merge` of fresh string keys followed by a dense array is plain
      concatenation: the dense array's integer keys renumber to themselves. */
  lemma MergeStringsFirst<T>(a: Arr<T>, b: Arr<T>)
    requires AllStrKeys(a.entries) && Dense(b)
    requires Distinct(KeysOf(a.entries + b.entries))
    ensures Merge(a, b) == Arr(a.entries + b.entries, b.next)
  {
    var q := a.entries + b.entries;
    assert DenseEntries(q) by {
      forall i | 0 <= i < |q| && q[i].0.IntKey?
        ensures q[i].0.i == IntCount(q[..i])
      {
        assert i >= |a.entries|;
        var j := i - |a.entries|;
        assert q[..i] == a.entries + b.entries[..j];
        IntCountAfterStrings(a.entries, b.entries[..j]);
      }
    }
    assert q[..0] == [];
    assert q[0..] == q;
    MergeIntoAppends(q, 0);
    IntCountAfterStrings(a.entries, b.entries);
  }
}
