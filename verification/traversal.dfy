/** The recursive walk both engines run over their input (`_traverse` in
    src/EncDec.js and src/EncDecSync.js): strings are handed to a callback,
    arrays are mapped in order, the own keys of plain objects are visited in
    `Object.keys` order and written back, and everything else passes through.

    Objects carry an identity so that the cycle guard can be stated: a mapping
    whose identity is already on the `visited` stack is a back reference to an
    ancestor and is returned as it is. */
module Traversal {
  import opened Base
  import opened Utils
  import opened Replace

  /** A JavaScript value as the walk sees it. */
  datatype Value =
    | Text(s: string)                          // '[object String]'
    | List(items: seq<Value>)                  // '[object Array]'
    | Mapping(id: nat, entries: seq<Entry>)    // '[object Object]', in `Object.keys` order
    | Other(tag: string)                       // numbers, booleans, null, dates, ...

  datatype Entry = Entry(key: string, val: Value)

  /** The one own key the walk never enters. */
  const PROTO: string := "__proto__"

  /** The instance's path stack (`_keys`) and the stack of objects being visited. */
  datatype Ctx = Ctx(keys: seq<string>, visited: seq<nat>)

  /** `Array.prototype.pop`, result discarded. */
  function Pop<T>(s: seq<T>): (r: seq<T>)
    ensures |s| > 0 ==> r + [s[|s| - 1]] == s
    ensures |s| == 0 ==> r == []
  {
    if |s| == 0 then [] else s[..|s| - 1]
  }

  /** The path segment of the i-th array element: `[${i}]`. */
  function Index(i: nat): string
  {
    "[" + NatToString(i) + "]"
  }

  /** What the walk does to one string: it sees the current path and threads a
      state through the whole walk. */
  type Handler<!S> = (seq<string>, string, S) -> Result<Step<S>>

  /** A walked value, the context after the visit and the threaded state. */
  datatype Out<T, S> = Out(val: T, ctx: Ctx, st: S)

  // ---------------------------------------------------------------- shape

  /** A value with every reached string blanked: two values with the same
      skeleton have the same kinds, the same array lengths, the same keys in the
      same order, and the same non-string scalars. Entries under `__proto__` are
      kept whole, since the walk does not enter them. */
  function Skeleton(v: Value): Value
    decreases v
  {
    match v
    case Text(_) => Text("")
    case List(items) => List(SkeletonItems(items))
    case Mapping(id, es) => Mapping(id, SkeletonEntries(es))
    case Other(_) => v
  }

  function SkeletonItems(items: seq<Value>): (r: seq<Value>)
    ensures |r| == |items|
    decreases items
  {
    if items == [] then [] else [Skeleton(items[0])] + SkeletonItems(items[1..])
  }

  function SkeletonEntries(es: seq<Entry>): (r: seq<Entry>)
    ensures |r| == |es|
    decreases es
  {
    if es == [] then []
    else
      var e := es[0];
      [Entry(e.key, if e.key == PROTO then e.val else Skeleton(e.val))] + SkeletonEntries(es[1..])
  }

  // ---------------------------------------------------------------- walk

  /** `_traverse`. */
  function Walk<S>(v: Value, ctx: Ctx, fn: Handler<S>, st: S): (r: Result<Out<Value, S>>)
    ensures r.Ok? ==> r.value.ctx == ctx
    ensures r.Ok? ==> Skeleton(r.value.val) == Skeleton(v)
    ensures v.Mapping? && v.id in ctx.visited ==> r == Ok(Out(v, ctx, st))
    decreases v
  {
    match v
    case Text(s) =>
      var step :- fn(ctx.keys, s, st);
      Ok(Out(Text(step.out), ctx, step.st))
    case List(items) =>
      var w :- WalkItems(items, 0, ctx, fn, st);
      Ok(Out(List(w.val), w.ctx, w.st))
    case Mapping(id, es) =>
      if id in ctx.visited then Ok(Out(v, ctx, st))
      else
        var w :- WalkEntries(id, es, ctx, fn, st);
        Ok(Out(Mapping(id, w.val), w.ctx, w.st))
    case Other(_) => Ok(Out(v, ctx, st))
  }

  /** The array branch from element `i` on: push `[i]`, walk, pop, collect. */
  function WalkItems<S>(items: seq<Value>, i: nat, ctx: Ctx, fn: Handler<S>, st: S): (r: Result<Out<seq<Value>, S>>)
    ensures r.Ok? ==> r.value.ctx == ctx
    ensures r.Ok? ==> SkeletonItems(r.value.val) == SkeletonItems(items)
    decreases items
  {
    if items == [] then Ok(Out([], ctx, st))
    else
      var h :- Walk(items[0], Ctx(ctx.keys + [Index(i)], ctx.visited), fn, st);
      var back := Ctx(Pop(h.ctx.keys), h.ctx.visited);
      var t :- WalkItems(items[1..], i + 1, back, fn, h.st);
      Ok(Out([h.val] + t.val, t.ctx, t.st))
  }

  /** The object branch: for every key but `__proto__`, push the object and the
      key, walk the value, pop both, and store the result under the key. */
  function WalkEntries<S>(id: nat, es: seq<Entry>, ctx: Ctx, fn: Handler<S>, st: S): (r: Result<Out<seq<Entry>, S>>)
    ensures r.Ok? ==> r.value.ctx == ctx
    ensures r.Ok? ==> SkeletonEntries(r.value.val) == SkeletonEntries(es)
    decreases es
  {
    if es == [] then Ok(Out([], ctx, st))
    else if es[0].key == PROTO then
      var t :- WalkEntries(id, es[1..], ctx, fn, st);
      Ok(Out([es[0]] + t.val, t.ctx, t.st))
    else
      var h :- Walk(es[0].val, Ctx(ctx.keys + [es[0].key], ctx.visited + [id]), fn, st);
      var back := Ctx(Pop(h.ctx.keys), Pop(h.ctx.visited));
      var t :- WalkEntries(id, es[1..], back, fn, h.st);
      Ok(Out([Entry(es[0].key, h.val)] + t.val, t.ctx, t.st))
  }

  /** A one-element array: the element is walked under `[0]`. */
  lemma WalkOneItem<S>(x: Value, ctx: Ctx, fn: Handler<S>, st: S)
    ensures var r := Walk(x, Ctx(ctx.keys + [Index(0)], ctx.visited), fn, st);
            Walk(List([x]), ctx, fn, st) ==
              if r.Err? then Err(r.error) else Ok(Out(List([r.value.val]), ctx, r.value.st))
  {
    assert [x][1..] == [];
    var r := Walk(x, Ctx(ctx.keys + [Index(0)], ctx.visited), fn, st);
    if r.Ok? {
      assert (ctx.keys + [Index(0)])[..|ctx.keys|] == ctx.keys;
      assert Pop(r.value.ctx.keys) == ctx.keys;
      assert WalkItems([x][1..], 1, ctx, fn, r.value.st) == Ok(Out([], ctx, r.value.st));
      assert [r.value.val] + [] == [r.value.val];
      assert WalkItems([x], 0, ctx, fn, st) == Ok(Out([r.value.val], ctx, r.value.st));
    }
  }

  /** A one-entry object not yet visited: the value is walked under its key. */
  lemma WalkOneEntry<S>(id: nat, k: string, x: Value, ctx: Ctx, fn: Handler<S>, st: S)
    requires k != PROTO && id !in ctx.visited
    ensures var r := Walk(x, Ctx(ctx.keys + [k], ctx.visited + [id]), fn, st);
            Walk(Mapping(id, [Entry(k, x)]), ctx, fn, st) ==
              if r.Err? then Err(r.error) else Ok(Out(Mapping(id, [Entry(k, r.value.val)]), ctx, r.value.st))
  {
    assert [Entry(k, x)][1..] == [];
    var r := Walk(x, Ctx(ctx.keys + [k], ctx.visited + [id]), fn, st);
    if r.Ok? {
      assert (ctx.keys + [k])[..|ctx.keys|] == ctx.keys;
      assert (ctx.visited + [id])[..|ctx.visited|] == ctx.visited;
      assert Pop(r.value.ctx.keys) == ctx.keys;
      assert Pop(r.value.ctx.visited) == ctx.visited;
      assert WalkEntries(id, [Entry(k, x)][1..], ctx, fn, r.value.st) == Ok(Out([], ctx, r.value.st));
      assert [Entry(k, r.value.val)] + [] == [Entry(k, r.value.val)];
      assert WalkEntries(id, [Entry(k, x)], ctx, fn, st) == Ok(Out([Entry(k, r.value.val)], ctx, r.value.st));
    }
  }

  // ---------------------------------------------------------------- reach

  /** Some string the walk reaches from `v` satisfies `P`: strings inside a
      back reference or under `__proto__` are not reached. */
  predicate Reaches(v: Value, visited: seq<nat>, P: string -> bool)
    decreases v
  {
    match v
    case Text(s) => P(s)
    case List(items) => ReachesItems(items, visited, P)
    case Mapping(id, es) => id !in visited && ReachesEntries(id, es, visited, P)
    case Other(_) => false
  }

  predicate ReachesItems(items: seq<Value>, visited: seq<nat>, P: string -> bool)
    decreases items
  {
    items != [] && (Reaches(items[0], visited, P) || ReachesItems(items[1..], visited, P))
  }

  predicate ReachesEntries(id: nat, es: seq<Entry>, visited: seq<nat>, P: string -> bool)
    decreases es
  {
    es != [] &&
    ((es[0].key != PROTO && Reaches(es[0].val, visited + [id], P)) || ReachesEntries(id, es[1..], visited, P))
  }

  /** A handler that only raises a flag on the strings satisfying `P` makes the
      walk return its input unchanged, with the flag raised exactly when some
      reached string satisfies `P`. */
  lemma {:induction false} WalkFlags(v: Value, ctx: Ctx, fn: Handler<bool>, P: string -> bool, b: bool)
    requires forall path, s, b' :: fn(path, s, b') == Ok(Step(s, b' || P(s)))
    ensures Walk(v, ctx, fn, b) == Ok(Out(v, ctx, b || Reaches(v, ctx.visited, P)))
    decreases v
  {
    match v
    case Text(s) =>
    case List(items) =>
      WalkItemsFlags(items, 0, ctx, fn, P, b);
    case Mapping(id, es) =>
      if id !in ctx.visited {
        WalkEntriesFlags(id, es, ctx, fn, P, b);
      }
    case Other(_) =>
  }

  lemma {:induction false} WalkItemsFlags(items: seq<Value>, i: nat, ctx: Ctx, fn: Handler<bool>, P: string -> bool, b: bool)
    requires forall path, s, b' :: fn(path, s, b') == Ok(Step(s, b' || P(s)))
    ensures WalkItems(items, i, ctx, fn, b) == Ok(Out(items, ctx, b || ReachesItems(items, ctx.visited, P)))
    decreases items
  {
    if items != [] {
      var c := Ctx(ctx.keys + [Index(i)], ctx.visited);
      WalkFlags(items[0], c, fn, P, b);
      var b1 := b || Reaches(items[0], ctx.visited, P);
      assert Pop(c.keys) == ctx.keys;
      WalkItemsFlags(items[1..], i + 1, ctx, fn, P, b1);
      assert [items[0]] + items[1..] == items;
    }
  }

  lemma {:induction false} WalkEntriesFlags(id: nat, es: seq<Entry>, ctx: Ctx, fn: Handler<bool>, P: string -> bool, b: bool)
    requires forall path, s, b' :: fn(path, s, b') == Ok(Step(s, b' || P(s)))
    ensures WalkEntries(id, es, ctx, fn, b) == Ok(Out(es, ctx, b || ReachesEntries(id, es, ctx.visited, P)))
    decreases es
  {
    if es != [] {
      if es[0].key == PROTO {
        WalkEntriesFlags(id, es[1..], ctx, fn, P, b);
      } else {
        var c := Ctx(ctx.keys + [es[0].key], ctx.visited + [id]);
        WalkFlags(es[0].val, c, fn, P, b);
        var b1 := b || Reaches(es[0].val, ctx.visited + [id], P);
        assert Pop(c.keys) == ctx.keys && Pop(c.visited) == ctx.visited;
        WalkEntriesFlags(id, es[1..], ctx, fn, P, b1);
        assert Entry(es[0].key, es[0].val) == es[0];
      }
      assert [es[0]] + es[1..] == es;
    }
  }

  /** A handler that keeps every string failing `P` (and its state) leaves a
      value none of whose reached strings satisfies `P` exactly as it was. */
  lemma {:induction false} WalkUntouched<S>(v: Value, ctx: Ctx, fn: Handler<S>, P: string -> bool, st: S)
    requires forall path, s, st' :: !P(s) ==> fn(path, s, st') == Ok(Step(s, st'))
    requires !Reaches(v, ctx.visited, P)
    ensures Walk(v, ctx, fn, st) == Ok(Out(v, ctx, st))
    decreases v
  {
    match v
    case Text(s) =>
    case List(items) =>
      WalkItemsUntouched(items, 0, ctx, fn, P, st);
    case Mapping(id, es) =>
      if id !in ctx.visited {
        WalkEntriesUntouched(id, es, ctx, fn, P, st);
      }
    case Other(_) =>
  }

  lemma {:induction false} WalkItemsUntouched<S>(items: seq<Value>, i: nat, ctx: Ctx, fn: Handler<S>, P: string -> bool, st: S)
    requires forall path, s, st' :: !P(s) ==> fn(path, s, st') == Ok(Step(s, st'))
    requires !ReachesItems(items, ctx.visited, P)
    ensures WalkItems(items, i, ctx, fn, st) == Ok(Out(items, ctx, st))
    decreases items
  {
    if items != [] {
      var c := Ctx(ctx.keys + [Index(i)], ctx.visited);
      WalkUntouched(items[0], c, fn, P, st);
      assert Pop(c.keys) == ctx.keys;
      WalkItemsUntouched(items[1..], i + 1, ctx, fn, P, st);
      assert [items[0]] + items[1..] == items;
    }
  }

  lemma {:induction false} WalkEntriesUntouched<S>(id: nat, es: seq<Entry>, ctx: Ctx, fn: Handler<S>, P: string -> bool, st: S)
    requires forall path, s, st' :: !P(s) ==> fn(path, s, st') == Ok(Step(s, st'))
    requires !ReachesEntries(id, es, ctx.visited, P)
    ensures WalkEntries(id, es, ctx, fn, st) == Ok(Out(es, ctx, st))
    decreases es
  {
    if es != [] {
      if es[0].key == PROTO {
        WalkEntriesUntouched(id, es[1..], ctx, fn, P, st);
      } else {
        var c := Ctx(ctx.keys + [es[0].key], ctx.visited + [id]);
        WalkUntouched(es[0].val, c, fn, P, st);
        assert Pop(c.keys) == ctx.keys && Pop(c.visited) == ctx.visited;
        WalkEntriesUntouched(id, es[1..], ctx, fn, P, st);
        assert Entry(es[0].key, es[0].val) == es[0];
      }
      assert [es[0]] + es[1..] == es;
    }
  }
}
