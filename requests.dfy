/**
 * What the router answers for a request and for the two lookups it offers,
 * as functions of the route table: the dispatcher's choice of entry and
 * parameters (index.js:312-346), the 405 answer (index.js:57-64), the Allow
 * list of `getAllowedMethods` (index.js:105-122) and the reverse lookup of
 * `urlFor` (index.js:126-140). The router class in module Routing computes
 * each of them with the source's loops and is proved against these.
 */
module Requests {
  import opened Wrappers
  import opened Sequences
  import opened Verbs
  import opened Patterns
  import opened Table
  import opened Params
  import opened Resolver

  // ---------------------------------------------------------------------------
  // Dispatch

  /**
   * The regular-expression engine: the captures `arg[1..]` of a match of the
   * pattern against the path, or None when it does not match.
   */
  type Matcher = (Regex, string) -> Option<seq<Option<string>>>

  /** What the dispatcher does with a request. */
  datatype Disposition =
    | Next                                                        // no route: `next()`
    | Invoke(controller: Controller, action: string, params: Params)
    | MissingAction(controller: Controller, action: string)       // `controller[action]` is not a function
    | MethodNotAllowed(message: string, allow: seq<Verb>, params: Params)
    | BadParameter(bad: BadCapture)                               // `decodeURIComponent` threw

  /** `url.parse(url).pathname` for a request path: everything before the query or the fragment. */
  function Pathname(url: string): (p: string)
    ensures p <= url && '?' !in p && '#' !in p
    ensures p != url ==> url[|p|] == '?' || url[|p|] == '#'
  {
    if url == [] || url[0] == '?' || url[0] == '#' then [] else [url[0]] + Pathname(url[1..])
  }

  /** The first entry, in insertion order, whose pattern matches the path; `|es|` when none does. */
  function FirstMatch(es: seq<Entry>, path: string, m: Matcher): (k: nat)
    ensures k <= |es|
    ensures k < |es| ==> m(es[k].compiled.regex, path).Some?
    ensures forall j :: 0 <= j < k ==> m(es[j].compiled.regex, path).None?
  {
    if es == [] then 0
    else if m(es[0].compiled.regex, path).Some? then 0
    else 1 + FirstMatch(es[1..], path, m)
  }

  /** `route.routes[verb]`, looked up by the exact request method. */
  function TableFor(routes: Routes, verbName: string): seq<Entry>
  {
    match Lookup(verbName)
    case Some(v) => TableOf(routes, v)
    case None => []
  }

  /** The 405 message of index.js:59. */
  function NotAllowedMessage(verbName: string): string
  {
    "Method " + verbName + " not defined on route"
  }

  /** The dispatcher's answer to a request with method `verbName` and URL `url`. */
  function Dispatched(routes: Routes, verbName: string, url: string, m: Matcher): (d: Disposition)
    ensures d.Invoke? ==> d.action in d.controller.actions
    ensures d.MethodNotAllowed? ==> d.message == NotAllowedMessage(verbName)
  {
    var es := TableFor(routes, verbName);
    var path := Pathname(url);
    var k := FirstMatch(es, path, m);
    if k == |es| then Next
    else Answer(routes, verbName, es[k], m(es[k].compiled.regex, path).value)
  }

  /** What the dispatcher does with the entry that matched and the captures of the match. */
  function Answer(routes: Routes, verbName: string, e: Entry, caps: seq<Option<string>>): (d: Disposition)
    ensures d != Next
    ensures d.BadParameter? <==> ParamsOf(e.compiled.keys, caps).Err?
    ensures d.Invoke? ==> e.handler == Bound(d.controller, d.action) && d.action in d.controller.actions
    ensures d.MissingAction? ==> e.handler == Bound(d.controller, d.action) && d.action !in d.controller.actions
    ensures d.MethodNotAllowed? ==>
      e.handler.NotAllowed? && d.message == NotAllowedMessage(verbName) && d.allow == Allowed(routes, e.Source())
    ensures d.Invoke? || d.MethodNotAllowed? ==> ParamsOf(e.compiled.keys, caps) == Ok(d.params)
  {
    match ParamsOf(e.compiled.keys, caps)
    case Err(bad) => BadParameter(bad)
    case Ok(p) =>
      match e.handler
      case Bound(c, a) => if a in c.actions then Invoke(c, a, p) else MissingAction(c, a)
      case NotAllowed => MethodNotAllowed(NotAllowedMessage(verbName), Allowed(routes, e.Source()), p)
  }

  /** A request goes to `next()` exactly when no pattern of its method's table matches its path. */
  lemma DispatchedNext(routes: Routes, verbName: string, url: string, m: Matcher)
    ensures Dispatched(routes, verbName, url, m) == Next <==>
      forall e :: e in TableFor(routes, verbName) ==> m(e.compiled.regex, Pathname(url)).None?
  {
    var es := TableFor(routes, verbName);
    var k := FirstMatch(es, Pathname(url), m);
    if k < |es| {
      assert es[k] in es;
    } else {
      forall e | e in es ensures m(e.compiled.regex, Pathname(url)).None? {
        var j :| 0 <= j < |es| && es[j] == e;
      }
    }
  }

  /**
   * A controller action is invoked only for the first matching entry of the
   * request's table, an entry that binds that action for the request's verb.
   */
  lemma DispatchedInvoke(routes: Routes, verbName: string, url: string, m: Matcher)
    requires Dispatched(routes, verbName, url, m).Invoke?
    ensures var d := Dispatched(routes, verbName, url, m);
      exists k :: 0 <= k < |TableFor(routes, verbName)| &&
        TableFor(routes, verbName)[k].handler == Bound(d.controller, d.action) &&
        m(TableFor(routes, verbName)[k].compiled.regex, Pathname(url)).Some? &&
        (forall j :: 0 <= j < k ==> m(TableFor(routes, verbName)[j].compiled.regex, Pathname(url)).None?)
  {
    var es := TableFor(routes, verbName);
    var k := FirstMatch(es, Pathname(url), m);
    assert es[k].handler.Bound?;
  }

  /** In a table without repeated sources an entry is the one stored under its own source. */
  lemma GetOwnEntry(es: seq<Entry>, k: nat)
    requires k < |es| && Distinct(Sources(es))
    ensures Get(es, es[k].Source()) == Some(es[k])
  {
    var f := Find(es, es[k].Source());
    assert f <= k;
    assert Sources(es)[f] == Sources(es)[k];
  }

  /**
   * On a well-formed table a 405 names a non-empty Allow list, every verb
   * that has a real entry at the matched route and no other, in declaration
   * order, and never the verb that was asked for.
   */
  lemma DispatchedNotAllowed(routes: Routes, verbName: string, url: string, m: Matcher)
    requires WellFormed(routes)
    requires Dispatched(routes, verbName, url, m).MethodNotAllowed?
    ensures var allow := Dispatched(routes, verbName, url, m).allow;
      allow != [] && Lookup(verbName).Some? && Lookup(verbName).value !in allow && InDeclarationOrder(allow)
  {
    var es := TableFor(routes, verbName);
    var k := FirstMatch(es, Pathname(url), m);
    var e := es[k];
    AnswerNotAllowed(routes, verbName, e, m(e.compiled.regex, Pathname(url)).value);
    var v := Lookup(verbName).value;
    NotAllowedEntry(routes, v, k);
  }

  lemma AnswerNotAllowed(routes: Routes, verbName: string, e: Entry, caps: seq<Option<string>>)
    requires Answer(routes, verbName, e, caps).MethodNotAllowed?
    ensures e.handler == NotAllowed && Answer(routes, verbName, e, caps).allow == Allowed(routes, e.Source())
  {
  }

  /** The Allow list at a 405 entry of a well-formed table. */
  lemma NotAllowedEntry(routes: Routes, v: Verb, k: nat)
    requires WellFormed(routes)
    requires k < |TableOf(routes, v)| && TableOf(routes, v)[k].handler == NotAllowed
    ensures var allow := Allowed(routes, TableOf(routes, v)[k].Source());
      allow != [] && v !in allow && InDeclarationOrder(allow)
  {
    var es := TableOf(routes, v);
    var e := es[k];
    assert routes != map[];
    assert Sources(es) == Sources(routes[GET]);
    GetOwnEntry(es, k);
    assert !Binds(routes, v, e.Source());
    assert Sources(es)[k] == e.Source();
    SourcesShared(routes, v, e.Source());
    AllowedNonEmpty(routes, e.Source());
    AllowedMeaning(routes, e.Source());
  }

  // ---------------------------------------------------------------------------
  // getAllowedMethods

  /** The argument of `getAllowedMethods`: a path or pattern, or a request that was routed. */
  datatype Query = ForPath(spec: PathSpec) | ForRequest(route: Entry)

  /** What `getAllowedMethods` returns, or the TypeError it throws. */
  function AllowedFor(routes: Routes, q: Query, strict: bool, sensitive: bool): Result<seq<Verb>, string>
  {
    var c := match q
      case ForPath(spec) => PathRegExp(spec, strict, sensitive)
      case ForRequest(e) => e.compiled;
    if q.ForPath? && !q.spec.Pattern? && c.keys != [] then Err("TypeError: keys is undefined")
    else AllowList(routes, c.regex.source)
  }

  /** The loop of index.js:115-121 over a source: it throws when a verb has no table. */
  function AllowList(routes: Routes, src: string): Result<seq<Verb>, string>
  {
    if exists v :: v !in routes then Err("TypeError: route table missing")
    else Ok(Allowed(routes, src))
  }

  /**
   * On a table that has been filled by a registration, the Allow list of a
   * routed request lists exactly the verbs bound at that route; on the empty
   * table the lookup throws.
   */
  lemma AllowedForRequest(routes: Routes, e: Entry, strict: bool, sensitive: bool)
    requires WellFormed(routes)
    ensures routes == map[] ==> AllowedFor(routes, ForRequest(e), strict, sensitive).Err?
    ensures routes != map[] ==>
      (AllowedFor(routes, ForRequest(e), strict, sensitive).Ok? &&
       forall v :: v in AllowedFor(routes, ForRequest(e), strict, sensitive).value <==> Binds(routes, v, e.Source()))
  {
    if routes == map[] {
      assert GET !in routes;
    } else {
      AllowedMeaning(routes, e.Source());
    }
  }

  /** A path with a named parameter makes the string branch throw, since it compiles without a keys array. */
  lemma AllowedForNamedPath(routes: Routes, text: string, strict: bool, sensitive: bool)
    requires KeysOf(Tokenize(Prepared(text, strict))) != []
    ensures AllowedFor(routes, ForPath(Literal(text)), strict, sensitive).Err?
  {
  }

  /** The `Allow` header of the 405 answer: `allow.join(', ')`. */
  function AllowHeader(allow: seq<Verb>): string
  {
    if allow == [] then "" else if |allow| == 1 then Name(allow[0]) else Name(allow[0]) + ", " + AllowHeader(allow[1..])
  }

  /** Verb names contain no comma, so the header lists each allowed verb in order, separated by ", ". */
  lemma {:induction false} AllowHeaderSplit(a: seq<Verb>, b: seq<Verb>)
    requires a != [] && b != []
    ensures AllowHeader(a + b) == AllowHeader(a) + ", " + AllowHeader(b)
    decreases |a|
  {
    AllowHeaderCons(a, b);
    if |a| > 1 {
      AllowHeaderSplit(a[1..], b);
      JoinAssoc(Name(a[0]), ", ", AllowHeader(a[1..]), AllowHeader(b));
    }
  }

  lemma AllowHeaderCons(a: seq<Verb>, b: seq<Verb>)
    requires a != [] && b != []
    ensures AllowHeader(a + b) == Name(a[0]) + ", " + AllowHeader(a[1..] + b)
    ensures |a| > 1 ==> AllowHeader(a) == Name(a[0]) + ", " + AllowHeader(a[1..])
    ensures |a| == 1 ==> AllowHeader(a) == Name(a[0]) && a[1..] + b == b
  {
    assert (a + b)[0] == a[0] && (a + b)[1..] == a[1..] + b;
  }

  // ---------------------------------------------------------------------------
  // urlFor

  /** The controller argument of `urlFor`: missing, an object, or a name. */
  datatype Target = NoTarget | ByIdentity(controller: Controller) | ByName(name: string)

  predicate Truthy(t: Target)
  {
    t.ByIdentity? || (t.ByName? && t.name != "")
  }

  /** index.js:133: the entry's controller is the one given, or is named so, and its action is the one asked for. */
  predicate Targets(h: Handler, t: Target, action: string)
  {
    h.Bound? && h.action == action &&
    (t == ByIdentity(h.controller) || (t.ByName? && h.controller.name == t.name))
  }

  /** The first entry of a table that the target names. */
  function FindEntry(es: seq<Entry>, t: Target, action: string): (r: Option<Entry>)
    ensures r.Some? ==> r.value in es && Targets(r.value.handler, t, action)
    ensures r.None? ==> forall e :: e in es ==> !Targets(e.handler, t, action)
  {
    if es == [] then None
    else if Targets(es[0].handler, t, action) then Some(es[0])
    else FindEntry(es[1..], t, action)
  }

  /** The first such entry over the tables of `vs`, in order. */
  function FindAmong(routes: Routes, vs: seq<Verb>, t: Target, action: string): Option<Entry>
  {
    if vs == [] then None
    else match FindEntry(TableOf(routes, vs[0]), t, action)
      case Some(e) => Some(e)
      case None => FindAmong(routes, vs[1..], t, action)
  }

  /** The route `urlFor` resolves: the tables are searched in verb declaration order, each in insertion order. */
  function FindRoute(routes: Routes, t: Target, action: string): Option<Entry>
  {
    FindAmong(routes, AllVerbs, t, action)
  }

  lemma {:induction false} FindAmongMeaning(routes: Routes, vs: seq<Verb>, t: Target, action: string)
    ensures var r := FindAmong(routes, vs, t, action);
      (r.Some? ==> Targets(r.value.handler, t, action) && exists v :: v in vs && r.value in TableOf(routes, v)) &&
      (r.None? ==> forall v, e :: v in vs && e in TableOf(routes, v) ==> !Targets(e.handler, t, action))
  {
    if vs != [] {
      FindAmongMeaning(routes, vs[1..], t, action);
      var r := FindAmong(routes, vs, t, action);
      if r.None? {
        forall v, e | v in vs && e in TableOf(routes, v) ensures !Targets(e.handler, t, action) {
          if v != vs[0] {
            assert v in vs[1..];
          }
        }
      } else if FindEntry(TableOf(routes, vs[0]), t, action).None? {
        var v :| v in vs[1..] && r.value in TableOf(routes, v);
        assert v in vs;
      }
    }
  }

  /**
   * The route found is an entry of the table that binds the action to the
   * controller asked for, and none is found exactly when no entry does.
   */
  lemma FindRouteMeaning(routes: Routes, t: Target, action: string)
    ensures var r := FindRoute(routes, t, action);
      (r.Some? ==> Targets(r.value.handler, t, action) && exists v :: r.value in TableOf(routes, v)) &&
      (r.None? ==> forall v, e :: e in TableOf(routes, v) ==> !Targets(e.handler, t, action))
  {
    FindAmongMeaning(routes, AllVerbs, t, action);
    forall v ensures v in AllVerbs {
      assert AllVerbs[Index(v)] == v;
    }
  }

  /** Entry `k` of a table binds the action and no entry before it does. */
  predicate FirstBinding(es: seq<Entry>, k: int, t: Target, action: string)
  {
    0 <= k < |es| && Targets(es[k].handler, t, action) &&
    forall j :: 0 <= j < k ==> !Targets(es[j].handler, t, action)
  }

  /** No entry of a table binds the action. */
  predicate NoBinding(es: seq<Entry>, t: Target, action: string)
  {
    forall e :: e in es ==> !Targets(e.handler, t, action)
  }

  /** The entry found in a table is the earliest inserted one that binds the action. */
  lemma {:induction false} FindEntryFirst(es: seq<Entry>, t: Target, action: string)
    ensures FindEntry(es, t, action).Some? ==>
      exists k :: FirstBinding(es, k, t, action) && es[k] == FindEntry(es, t, action).value
  {
    if es != [] && !Targets(es[0].handler, t, action) {
      FindEntryFirst(es[1..], t, action);
      if FindEntry(es, t, action).Some? {
        var k :| FirstBinding(es[1..], k, t, action) && es[1..][k] == FindEntry(es, t, action).value;
        assert FirstBinding(es, k + 1, t, action);
      }
    } else if es != [] {
      assert FirstBinding(es, 0, t, action);
    }
  }

  /**
   * Over several tables the entry found comes from the first table, in the
   * order of `vs`, that binds the action at all, and is the earliest binding
   * entry of that table.
   */
  lemma {:induction false} FindAmongFirst(routes: Routes, vs: seq<Verb>, t: Target, action: string)
    ensures FindAmong(routes, vs, t, action).Some? ==>
      exists i, k :: 0 <= i < |vs| && FirstBinding(TableOf(routes, vs[i]), k, t, action) &&
        TableOf(routes, vs[i])[k] == FindAmong(routes, vs, t, action).value &&
        forall j :: 0 <= j < i ==> NoBinding(TableOf(routes, vs[j]), t, action)
  {
    if vs != [] {
      var r := FindAmong(routes, vs, t, action);
      var head := FindEntry(TableOf(routes, vs[0]), t, action);
      if head.Some? {
        FindEntryFirst(TableOf(routes, vs[0]), t, action);
        var k :| FirstBinding(TableOf(routes, vs[0]), k, t, action) && TableOf(routes, vs[0])[k] == head.value;
        assert 0 <= 0 < |vs| && TableOf(routes, vs[0])[k] == r.value;
      } else {
        FindAmongFirst(routes, vs[1..], t, action);
        if r.Some? {
          var i, k :| 0 <= i < |vs[1..]| && FirstBinding(TableOf(routes, vs[1..][i]), k, t, action) &&
            TableOf(routes, vs[1..][i])[k] == r.value &&
            forall j :: 0 <= j < i ==> NoBinding(TableOf(routes, vs[1..][j]), t, action);
          forall j | 0 <= j < i + 1 ensures NoBinding(TableOf(routes, vs[j]), t, action) {
            if j > 0 {
              assert vs[j] == vs[1..][j - 1];
            }
          }
          assert vs[i + 1] == vs[1..][i];
        }
      }
    }
  }

  /**
   * `urlFor` takes the first binding route: verbs in declaration order, and
   * within the table of a verb the earliest inserted entry.
   */
  lemma FindRouteFirst(routes: Routes, t: Target, action: string)
    ensures FindRoute(routes, t, action).Some? ==>
      exists v, k :: FirstBinding(TableOf(routes, v), k, t, action) &&
        TableOf(routes, v)[k] == FindRoute(routes, t, action).value &&
        forall w :: Index(w) < Index(v) ==> NoBinding(TableOf(routes, w), t, action)
  {
    FindAmongFirst(routes, AllVerbs, t, action);
    if FindRoute(routes, t, action).Some? {
      var i, k :| 0 <= i < |AllVerbs| && FirstBinding(TableOf(routes, AllVerbs[i]), k, t, action) &&
        TableOf(routes, AllVerbs[i])[k] == FindRoute(routes, t, action).value &&
        forall j :: 0 <= j < i ==> NoBinding(TableOf(routes, AllVerbs[j]), t, action);
      var v := AllVerbs[i];
      assert Index(v) == i;
      forall w | Index(w) < Index(v) ensures NoBinding(TableOf(routes, w), t, action) {
        assert AllVerbs[Index(w)] == w;
      }
    }
  }

  /** What `interpolateUrl` makes of a stored path, or the TypeError an array path raises. */
  function Interpolate(path: PathSpec, args: seq<Arg>): Result<string, string>
  {
    var f := Flat(NamedTail(args), Positionals(args));
    match path
    case Literal(text) => Ok(InterpolatePath(text, f))
    case Pattern(r) => Ok(InterpolateSource(r.source, f))
    case Alternatives(_) => Err("TypeError: url.replace is not a function")
  }

  /** What `urlFor(controller, action, ...args)` returns, or the error it throws. */
  function UrlOf(routes: Routes, t: Target, action: string, args: seq<Arg>): Result<string, string>
  {
    if !Truthy(t) || action == "" then Err("Expects controller and action")
    else match FindRoute(routes, t, action)
      case None => Ok("")
      case Some(e) => Interpolate(e.path, args)
  }

  /**
   * The reverse lookup fails only for a missing controller or action or for
   * an array path, gives "" exactly when no route binds the action, and
   * fallback entries never count as binding it.
   */
  lemma UrlOfMeaning(routes: Routes, t: Target, action: string, args: seq<Arg>)
    ensures UrlOf(routes, t, action, args).Err? <==>
      !Truthy(t) || action == "" ||
      (FindRoute(routes, t, action).Some? && FindRoute(routes, t, action).value.path.Alternatives?)
    ensures Truthy(t) && action != "" && (forall v, e :: e in TableOf(routes, v) ==> !Targets(e.handler, t, action)) ==>
      UrlOf(routes, t, action, args) == Ok("")
    ensures forall v, e :: e in TableOf(routes, v) && e.handler.NotAllowed? ==> !Targets(e.handler, t, action)
  {
    FindRouteMeaning(routes, t, action);
  }
}
