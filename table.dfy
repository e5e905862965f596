/**
 * The route table `route.routes` (index.js:192-224): for every HTTP verb, the
 * entries keyed by the source text of their regular expression, in the order
 * the keys were first inserted. Everything here is a value; the router class
 * in module Routing updates one of these tables in place and is proved
 * against the functions below.
 */
module Table {
  import opened Wrappers
  import opened Verbs
  import opened Patterns

  /** A controller object: its identity, its `name` property ("" when it has none) and the actions it defines. */
  datatype Controller = Controller(id: nat, name: string, actions: set<string>)

  /**
   * What an entry calls: an action of a controller, or the 405 fallback that
   * `route` installs with `controller: config, action: 'errorHandler'`.
   */
  datatype Handler = Bound(controller: Controller, action: string) | NotAllowed

  /** One `route.routes[verb][source]` object: the path as given, its compiled form, its handler. */
  datatype Entry = Entry(path: PathSpec, compiled: Compiled, handler: Handler)
  {
    /** The key the entry is stored under, `regexp.source`. */
    function Source(): string
    {
      compiled.regex.source
    }
  }

  /** `route.routes`: a verb without a table is absent from the map. */
  type Routes = map<Verb, seq<Entry>>

  /** `route.routes[verb] || {}`. */
  function TableOf(routes: Routes, v: Verb): seq<Entry>
  {
    if v in routes then routes[v] else []
  }

  /** The keys of one table, in insertion order. */
  function Sources(es: seq<Entry>): (r: seq<string>)
    ensures |r| == |es| && forall i :: 0 <= i < |es| ==> r[i] == es[i].Source()
  {
    if es == [] then [] else [es[0].Source()] + Sources(es[1..])
  }

  predicate Distinct(s: seq<string>)
  {
    forall i, j :: 0 <= i < j < |s| ==> s[i] != s[j]
  }

  /** Where the key `src` sits in a table, `|es|` when it is absent. */
  function Find(es: seq<Entry>, src: string): (i: nat)
    ensures i <= |es|
    ensures i < |es| ==> es[i].Source() == src
    ensures forall j :: 0 <= j < i ==> es[j].Source() != src
  {
    if es == [] then 0
    else if es[0].Source() == src then 0
    else
      var k := Find(es[1..], src);
      assert forall j :: 1 <= j < k + 1 ==> es[j] == es[1..][j - 1];
      1 + k
  }

  /** `table[src]` is defined. */
  predicate Has(es: seq<Entry>, src: string)
  {
    Find(es, src) < |es|
  }

  /** `table[src]`. */
  function Get(es: seq<Entry>, src: string): (r: Option<Entry>)
    ensures r.Some? <==> src in Sources(es)
    ensures r.Some? ==> r.value in es && r.value.Source() == src
  {
    if Has(es, src) then Some(es[Find(es, src)]) else None
  }

  /**
   * `table[e.source] = e`: a key already present keeps its place and gets the
   * new entry, a new key goes last.
   */
  function Put(es: seq<Entry>, e: Entry): seq<Entry>
  {
    var i := Find(es, e.Source());
    if i < |es| then es[i := e] else es + [e]
  }

  /** After a `Put`, the key holds the new entry, the order of keys changes only by a new last key, and no other key changes. */
  lemma PutGet(es: seq<Entry>, e: Entry, src: string)
    ensures Get(Put(es, e), e.Source()) == Some(e)
    ensures Sources(Put(es, e)) == if Has(es, e.Source()) then Sources(es) else Sources(es) + [e.Source()]
    ensures src != e.Source() ==> Get(Put(es, e), src) == Get(es, src)
  {
    var i := Find(es, e.Source());
    var r := Put(es, e);
    if i < |es| {
      assert Sources(r) == Sources(es);
      FindSameSources(r, es, src);
      FindSameSources(r, es, e.Source());
    } else {
      assert Sources(r) == Sources(es) + [e.Source()];
      FindPrefix(es, e, src);
      FindPrefix(es, e, e.Source());
    }
  }

  /** Two tables with the same keys find a key at the same place. */
  lemma FindSameSources(a: seq<Entry>, b: seq<Entry>, src: string)
    requires Sources(a) == Sources(b)
    ensures Find(a, src) == Find(b, src)
  {
    assert |a| == |Sources(a)| == |b|;
    assert forall k :: 0 <= k < |a| ==> a[k].Source() == Sources(a)[k] == b[k].Source();
  }

  /** Appending an entry does not move a key that was already there. */
  lemma FindPrefix(es: seq<Entry>, e: Entry, src: string)
    ensures Find(es + [e], src) == if Has(es, src) then Find(es, src) else if e.Source() == src then |es| else |es| + 1
  {
    var x := es + [e];
    assert forall k :: 0 <= k < |es| ==> x[k] == es[k];
    assert x[|es|] == e;
  }

  // ---------------------------------------------------------------------------
  // Registration

  /**
   * The table for verb `v` after `route(path, controller, action, verb)`
   * registers the entry `e` (index.js:207-224): the verb asked for always gets
   * `e`; for a GET, HEAD gets `e` too unless it already has an entry at that
   * source (then index.js:210 skips it); every other verb keeps the entry it
   * has and otherwise gets the 405 fallback.
   */
  function Slot(routes: Routes, verb: Verb, v: Verb, e: Entry): seq<Entry>
  {
    var es := TableOf(routes, v);
    if v == verb then Put(es, e)
    else if Has(es, e.Source()) then es
    else if v == HEAD && verb == GET then Put(es, e)
    else Put(es, e.(handler := NotAllowed))
  }

  /** The whole table after registering `e` for `verb`: every verb now has a table. */
  function Registered(routes: Routes, verb: Verb, e: Entry): Routes
  {
    map v | v in AllVerbs :: Slot(routes, verb, v, e)
  }

  /**
   * Each verb's table gains the new source, last, when it did not have it,
   * and otherwise keeps its sources: a registration adds no other key.
   */
  lemma SlotSources(routes: Routes, verb: Verb, v: Verb, e: Entry)
    ensures Sources(Slot(routes, verb, v, e)) ==
      if Has(TableOf(routes, v), e.Source()) then Sources(TableOf(routes, v))
      else Sources(TableOf(routes, v)) + [e.Source()]
  {
    var es := TableOf(routes, v);
    PutGet(es, e, e.Source());
    PutGet(es, e.(handler := NotAllowed), e.Source());
  }

  lemma RegisteredDomain(routes: Routes, verb: Verb, e: Entry)
    ensures forall v :: v in Registered(routes, verb, e) && Registered(routes, verb, e)[v] == Slot(routes, verb, v, e)
  {
    forall v ensures v in Registered(routes, verb, e)
    {
      assert AllVerbs[Index(v)] == v;
    }
  }

  /** The verb asked for now holds the new entry at its source. */
  lemma RegisterSetsTarget(routes: Routes, verb: Verb, e: Entry)
    ensures Get(TableOf(Registered(routes, verb, e), verb), e.Source()) == Some(e)
  {
    RegisteredDomain(routes, verb, e);
    PutGet(TableOf(routes, verb), e, e.Source());
  }

  /**
   * Every other verb, HEAD after a GET excepted, keeps an entry it already has
   * at the source and otherwise gets the 405 fallback there.
   */
  lemma RegisterFillsOthers(routes: Routes, verb: Verb, e: Entry, v: Verb)
    requires v != verb && !(v == HEAD && verb == GET)
    ensures Has(TableOf(routes, v), e.Source()) ==> TableOf(Registered(routes, verb, e), v) == TableOf(routes, v)
    ensures !Has(TableOf(routes, v), e.Source()) ==>
      Get(TableOf(Registered(routes, verb, e), v), e.Source()) == Some(e.(handler := NotAllowed))
  {
    RegisteredDomain(routes, verb, e);
    PutGet(TableOf(routes, v), e.(handler := NotAllowed), e.Source());
  }

  /**
   * A GET registration also binds HEAD, but only where HEAD has no entry at the
   * source yet; an earlier 405 fallback there blocks it.
   */
  lemma RegisterGetBindsHead(routes: Routes, e: Entry)
    ensures Has(TableOf(routes, HEAD), e.Source()) ==> TableOf(Registered(routes, GET, e), HEAD) == TableOf(routes, HEAD)
    ensures !Has(TableOf(routes, HEAD), e.Source()) ==> Get(TableOf(Registered(routes, GET, e), HEAD), e.Source()) == Some(e)
  {
    RegisteredDomain(routes, GET, e);
    PutGet(TableOf(routes, HEAD), e, e.Source());
  }

  /**
   * No other source changes, and in every table a source keeps its place: the
   * new source, when it is new, goes last.
   */
  lemma RegisterFrame(routes: Routes, verb: Verb, e: Entry, v: Verb, src: string)
    ensures src != e.Source() ==> Get(TableOf(Registered(routes, verb, e), v), src) == Get(TableOf(routes, v), src)
    ensures Sources(TableOf(Registered(routes, verb, e), v)) ==
      if Has(TableOf(routes, v), e.Source()) then Sources(TableOf(routes, v)) else Sources(TableOf(routes, v)) + [e.Source()]
  {
    RegisteredDomain(routes, verb, e);
    var es := TableOf(routes, v);
    PutGet(es, e, src);
    PutGet(es, e.(handler := NotAllowed), src);
  }

  // ---------------------------------------------------------------------------
  // The Allow list

  /** The verbs of `vs`, in order, whose table holds a non-fallback entry at `src`. */
  function AllowedAmong(routes: Routes, src: string, vs: seq<Verb>): seq<Verb>
  {
    if vs == [] then []
    else (if Binds(routes, vs[0], src) then [vs[0]] else []) + AllowedAmong(routes, src, vs[1..])
  }

  /** `route.routes[v][src] && route.routes[v][src].controller !== config`. */
  predicate Binds(routes: Routes, v: Verb, src: string)
  {
    var g := Get(TableOf(routes, v), src);
    g.Some? && g.value.handler.Bound?
  }

  /** The Allow list of a 405 answer for the route stored at `src` (index.js:115-121). */
  function Allowed(routes: Routes, src: string): seq<Verb>
  {
    AllowedAmong(routes, src, AllVerbs)
  }

  lemma {:induction false} AllowedAmongMeaning(routes: Routes, src: string, vs: seq<Verb>)
    ensures forall v :: v in AllowedAmong(routes, src, vs) <==> v in vs && Binds(routes, v, src)
  {
    if vs != [] {
      AllowedAmongMeaning(routes, src, vs[1..]);
      assert forall v :: v in vs <==> v == vs[0] || v in vs[1..];
    }
  }

  /** Verbs listed in `vs` strictly in declaration order. */
  predicate InDeclarationOrder(vs: seq<Verb>)
  {
    forall i, j :: 0 <= i < j < |vs| ==> Index(vs[i]) < Index(vs[j])
  }

  lemma {:induction false} AllowedAmongOrdered(routes: Routes, src: string, vs: seq<Verb>)
    requires InDeclarationOrder(vs)
    ensures InDeclarationOrder(AllowedAmong(routes, src, vs))
  {
    if vs != [] {
      var tail := vs[1..];
      AllowedAmongOrdered(routes, src, tail);
      AllowedAmongMeaning(routes, src, tail);
      var r := AllowedAmong(routes, src, tail);
      if Binds(routes, vs[0], src) {
        forall k | 0 <= k < |r|
          ensures Index(vs[0]) < Index(r[k])
        {
          HeadBeforeTail(vs, r[k]);
        }
        PrependOrdered(vs[0], r);
      }
    }
  }

  lemma HeadBeforeTail(vs: seq<Verb>, v: Verb)
    requires InDeclarationOrder(vs) && vs != [] && v in vs[1..]
    ensures Index(vs[0]) < Index(v)
  {
    var j :| 0 <= j < |vs[1..]| && vs[1..][j] == v;
    assert vs[j + 1] == v;
  }

  lemma PrependOrdered(v: Verb, r: seq<Verb>)
    requires InDeclarationOrder(r) && forall k :: 0 <= k < |r| ==> Index(v) < Index(r[k])
    ensures InDeclarationOrder([v] + r)
  {
    var x := [v] + r;
    forall i, j | 0 <= i < j < |x|
      ensures Index(x[i]) < Index(x[j])
    {
      assert x[j] == r[j - 1];
      if i > 0 {
        assert x[i] == r[i - 1];
      }
    }
  }

  /**
   * A verb is in the Allow list exactly when its table holds a non-fallback
   * entry at the source, and the list follows the declaration order of the verbs.
   */
  lemma AllowedMeaning(routes: Routes, src: string)
    ensures forall v :: v in Allowed(routes, src) <==> Binds(routes, v, src)
    ensures InDeclarationOrder(Allowed(routes, src))
  {
    AllowedAmongMeaning(routes, src, AllVerbs);
    AllowedAmongOrdered(routes, src, AllVerbs);
    forall v ensures v in AllVerbs
    {
      assert AllVerbs[Index(v)] == v;
    }
  }

  // ---------------------------------------------------------------------------
  // The invariant of the table

  /**
   * The table as `route` keeps it: empty after `setupRoute`; otherwise every
   * verb has a table, all tables list the same sources in the same order, no
   * source twice, and at every source some verb holds a real entry.
   */
  predicate WellFormed(routes: Routes)
  {
    routes == map[] ||
    ((forall v :: v in routes) &&
     (forall v :: v in routes ==> Sources(routes[v]) == Sources(routes[GET])) &&
     Distinct(Sources(routes[GET])) &&
     (forall src :: src in Sources(routes[GET]) ==> exists v :: Binds(routes, v, src)))
  }

  /** Every verb has the same sources before a registration and gains the new source together. */
  lemma RegisterSources(routes: Routes, verb: Verb, e: Entry, v: Verb)
    requires WellFormed(routes)
    ensures Sources(TableOf(Registered(routes, verb, e), v)) ==
      if e.Source() in Sources(TableOf(routes, GET)) then Sources(TableOf(routes, GET))
      else Sources(TableOf(routes, GET)) + [e.Source()]
  {
    RegisterFrame(routes, verb, e, v, e.Source());
    var es := TableOf(routes, v);
    assert Sources(es) == Sources(TableOf(routes, GET));
    FindMeaning(es, e.Source());
  }

  lemma FindMeaning(es: seq<Entry>, src: string)
    ensures Has(es, src) <==> src in Sources(es)
  {
    if src in Sources(es) {
      var i :| 0 <= i < |es| && Sources(es)[i] == src;
      assert Find(es, src) <= i;
    }
  }

  /**
   * Registration keeps the table well formed, and the new source then has an
   * Allow list that names the verb just registered.
   */
  lemma RegisterKeepsWellFormed(routes: Routes, verb: Verb, c: Controller, action: string, path: PathSpec, compiled: Compiled)
    requires WellFormed(routes)
    ensures var r := Registered(routes, verb, Entry(path, compiled, Bound(c, action)));
      WellFormed(r) && r != map[] && verb in Allowed(r, compiled.regex.source)
  {
    var e := Entry(path, compiled, Bound(c, action));
    var r := Registered(routes, verb, e);
    RegisteredDomain(routes, verb, e);
    RegisterSameSources(routes, verb, e);
    RegisterSetsTarget(routes, verb, e);
    assert Binds(r, verb, e.Source());
    RegisterKeepsBound(routes, verb, e);
    AllowedMeaning(r, e.Source());
  }

  lemma RegisterSameSources(routes: Routes, verb: Verb, e: Entry)
    requires WellFormed(routes)
    ensures var r := Registered(routes, verb, e);
      (forall v :: v in r && Sources(r[v]) == Sources(r[GET])) && Distinct(Sources(r[GET]))
      && Sources(r[GET]) == if e.Source() in Sources(TableOf(routes, GET)) then Sources(TableOf(routes, GET))
         else Sources(TableOf(routes, GET)) + [e.Source()]
  {
    var r := Registered(routes, verb, e);
    var g := Sources(TableOf(routes, GET));
    var after := if e.Source() in g then g else g + [e.Source()];
    RegisteredDomain(routes, verb, e);
    forall v ensures Sources(r[v]) == after
    {
      RegisterSources(routes, verb, e, v);
    }
    assert Distinct(g);
    if e.Source() !in g {
      DistinctSnoc(g, e.Source());
    }
  }

  lemma DistinctSnoc(s: seq<string>, x: string)
    requires Distinct(s) && x !in s
    ensures Distinct(s + [x])
  {
    forall i, j | 0 <= i < j < |s| + 1 ensures (s + [x])[i] != (s + [x])[j]
    {
      if j == |s| {
        assert s[i] in s;
      }
    }
  }

  /** Every source of a well-formed table keeps a verb with a real entry after a registration of a real entry. */
  lemma RegisterKeepsBound(routes: Routes, verb: Verb, e: Entry)
    requires WellFormed(routes) && e.handler.Bound?
    ensures var r := Registered(routes, verb, e);
      forall s :: s in Sources(TableOf(r, GET)) ==> exists v :: Binds(r, v, s)
  {
    var r := Registered(routes, verb, e);
    RegisterSameSources(routes, verb, e);
    forall s | s in Sources(TableOf(r, GET))
      ensures exists v :: Binds(r, v, s)
    {
      if s == e.Source() {
        RegisterSetsTarget(routes, verb, e);
        assert Binds(r, verb, s);
      } else {
        assert s in Sources(TableOf(routes, GET));
        var w :| Binds(routes, w, s);
        RegisterFrame(routes, verb, e, w, s);
        assert Binds(r, w, s);
      }
    }
  }

  /** In a well-formed table every stored source has a non-empty Allow list. */
  lemma AllowedNonEmpty(routes: Routes, src: string)
    requires WellFormed(routes) && src in Sources(TableOf(routes, GET))
    ensures Allowed(routes, src) != []
  {
    var w :| Binds(routes, w, src);
    AllowedMeaning(routes, src);
  }

  /** In a well-formed table a source stored for one verb is stored for every verb. */
  lemma SourcesShared(routes: Routes, v: Verb, src: string)
    requires WellFormed(routes) && src in Sources(TableOf(routes, v))
    ensures src in Sources(TableOf(routes, GET))
  {
  }
}
