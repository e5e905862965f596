/**
 * The router itself: the configuration `setupRoute` writes (index.js:352-362),
 * the route table `route.routes` that `route`, `route.resources` and
 * `route.resource` fill in place (index.js:192-289), and the request-time
 * operations that read it: the dispatcher (index.js:312-346),
 * `getAllowedMethods` (index.js:105-122) and `urlFor` (index.js:126-140).
 * Each method is proved against the functions of modules Table, Requests and
 * Resolver, and keeps the table well formed.
 */
module Routing {
  import opened Wrappers
  import opened Sequences
  import opened Verbs
  import opened Patterns
  import opened Table
  import opened Params
  import opened Resolver
  import opened Requests

  // ---------------------------------------------------------------------------
  // Configuration

  /** `config.resourceActions` as the module defines it: each action under its own name. */
  const DefaultActions: map<string, string> :=
    map["list" := "list", "new" := "new", "create" := "create", "show" := "show",
        "edit" := "edit", "update" := "update", "destroy" := "destroy"]

  /**
   * The options `setupRoute` reads. `urlResourceActions` lists the properties
   * of the override object in enumeration order; "" stands for a falsy value.
   */
  datatype Options = Options(urlsCaseSensitive: bool, urlsAllowTrailingSlashes: bool, urlResourceActions: seq<(string, string)>)

  /** Every resource action has a non-empty name. */
  predicate ActionsConfigured(actions: map<string, string>)
  {
    forall k :: k in DefaultActions ==> k in actions && actions[k] != ""
  }

  /** One pass of the loop of index.js:357-359: a truthy override replaces the name, a falsy one keeps it. */
  function MergeOne(current: map<string, string>, key: string, value: string): map<string, string>
  {
    current[key := if value != "" then value else if key in current then current[key] else ""]
  }

  /** The action map after the whole loop over the overrides. */
  function Merged(current: map<string, string>, overrides: seq<(string, string)>): map<string, string>
  {
    if overrides == [] then current
    else
      var last := overrides[|overrides| - 1];
      MergeOne(Merged(current, overrides[..|overrides| - 1]), last.0, last.1)
  }

  /** The keys the overrides name. */
  function OverrideKeys(overrides: seq<(string, string)>): set<string>
  {
    if overrides == [] then {} else OverrideKeys(overrides[..|overrides| - 1]) + {overrides[|overrides| - 1].0}
  }

  /**
   * Merging keeps every action and adds the overridden keys; a name changes
   * only to a truthy override, so a configured map stays configured.
   */
  lemma {:induction false} MergedMeaning(current: map<string, string>, overrides: seq<(string, string)>)
    ensures var m := Merged(current, overrides);
      m.Keys == current.Keys + OverrideKeys(overrides)
    ensures forall k :: k in current ==>
      Merged(current, overrides)[k] == current[k] ||
      exists i :: 0 <= i < |overrides| && overrides[i].0 == k && overrides[i].1 != "" && Merged(current, overrides)[k] == overrides[i].1
    ensures ActionsConfigured(current) ==> ActionsConfigured(Merged(current, overrides))
  {
    if overrides != [] {
      var n := |overrides| - 1;
      var init := overrides[..n];
      MergedMeaning(current, init);
      var before := Merged(current, init);
      forall k | k in current
        ensures Merged(current, overrides)[k] == current[k] ||
          exists i :: 0 <= i < |overrides| && overrides[i].0 == k && overrides[i].1 != "" && Merged(current, overrides)[k] == overrides[i].1
      {
        if k == overrides[n].0 && overrides[n].1 != "" {
          assert Merged(current, overrides)[k] == overrides[n].1;
        } else if before[k] != current[k] {
          var i :| 0 <= i < n && init[i].0 == k && init[i].1 != "" && before[k] == init[i].1;
          assert overrides[i] == init[i];
        }
      }
    }
  }

  /** Override `i` gives `key` a truthy name and no later override of `key` does. */
  predicate LastTruthyAt(overrides: seq<(string, string)>, key: string, i: int)
  {
    0 <= i < |overrides| && overrides[i].0 == key && overrides[i].1 != "" &&
    forall j :: i < j < |overrides| && overrides[j].0 == key ==> overrides[j].1 == ""
  }

  /** Every override of `key`, if any, is falsy. */
  predicate NoTruthy(overrides: seq<(string, string)>, key: string)
  {
    forall i :: 0 <= i < |overrides| && overrides[i].0 == key ==> overrides[i].1 == ""
  }

  /** An action's name is the one its last truthy override gives it. */
  lemma {:induction false} MergedLastTruthy(current: map<string, string>, overrides: seq<(string, string)>, key: string, i: int)
    requires LastTruthyAt(overrides, key, i)
    ensures key in Merged(current, overrides) && Merged(current, overrides)[key] == overrides[i].1
  {
    var n := |overrides| - 1;
    var init := overrides[..n];
    if i < n {
      assert init[i] == overrides[i];
      assert overrides[n].0 == key ==> overrides[n].1 == "";
      forall j | i < j < n && init[j].0 == key ensures init[j].1 == "" {
        assert init[j] == overrides[j];
      }
      MergedLastTruthy(current, init, key, i);
    }
  }

  /**
   * An action no truthy override names keeps its configured name, or is ""
   * when only falsy overrides add it.
   */
  lemma {:induction false} MergedNoTruthy(current: map<string, string>, overrides: seq<(string, string)>, key: string)
    requires NoTruthy(overrides, key) && key in Merged(current, overrides)
    ensures Merged(current, overrides)[key] == if key in current then current[key] else ""
  {
    if overrides != [] {
      var n := |overrides| - 1;
      var init := overrides[..n];
      var before := Merged(current, init);
      forall j | 0 <= j < n && init[j].0 == key ensures init[j].1 == "" {
        assert init[j] == overrides[j];
      }
      MergedMeaning(current, init);
      if key in before {
        MergedNoTruthy(current, init, key);
      }
    }
  }

  // ---------------------------------------------------------------------------
  // Resource rows

  /** One line of the resource tables: the action key, the verb, the URL. */
  datatype Row = Row(action: string, verb: Verb, path: string)

  /** The rows of `route.resources` (index.js:256-263), in the order they are registered. */
  function ResourcesRows(url: string, id: string): seq<Row>
  {
    var urlid := url + "/" + id;
    [Row("list", GET, url), Row("create", POST, url), Row("new", GET, url + "/new"),
     Row("show", GET, urlid), Row("update", PUT, urlid), Row("update", PATCH, urlid),
     Row("destroy", DELETE, urlid), Row("edit", GET, urlid + "/edit")]
  }

  /** The rows of `route.resource` (index.js:280-286): the bare URL, no id. */
  function ResourceRows(url: string): seq<Row>
  {
    [Row("show", GET, url), Row("create", POST, url), Row("update", PUT, url), Row("update", PATCH, url),
     Row("destroy", DELETE, url), Row("new", GET, url + "/new"), Row("edit", GET, url + "/edit")]
  }

  /** The action name configured for a row; "" when there is none. */
  function ActionOf(row: Row, actions: map<string, string>): string
  {
    if row.action in actions then actions[row.action] else ""
  }

  /** `controller[name]` is truthy: the controller defines that action. */
  predicate Supports(c: Controller, name: string)
  {
    name != "" && name in c.actions
  }

  /** The entry `route` stores for a string path. */
  function EntryFor(path: string, c: Controller, action: string, strict: bool, sensitive: bool): Entry
  {
    Entry(Literal(path), PathRegExp(Literal(path), strict, sensitive), Bound(c, action))
  }

  /** One `if (controller[actions.x]) route(...)` line. */
  function ApplyRow(routes: Routes, row: Row, c: Controller, actions: map<string, string>, strict: bool, sensitive: bool): Routes
  {
    var a := ActionOf(row, actions);
    if Supports(c, a) then Registered(routes, row.verb, EntryFor(row.path, c, a, strict, sensitive)) else routes
  }

  /** The lines in order. */
  function Apply(routes: Routes, rows: seq<Row>, c: Controller, actions: map<string, string>, strict: bool, sensitive: bool): Routes
    decreases |rows|
  {
    if rows == [] then routes
    else Apply(ApplyRow(routes, rows[0], c, actions, strict, sensitive), rows[1..], c, actions, strict, sensitive)
  }

  /** The rows a controller supports register their entries and keep the table well formed. */
  lemma {:induction false} ApplyKeepsWellFormed(routes: Routes, rows: seq<Row>, c: Controller, actions: map<string, string>, strict: bool, sensitive: bool)
    requires WellFormed(routes)
    ensures WellFormed(Apply(routes, rows, c, actions, strict, sensitive))
    decreases |rows|
  {
    if rows != [] {
      var row := rows[0];
      var a := ActionOf(row, actions);
      var next := ApplyRow(routes, row, c, actions, strict, sensitive);
      if Supports(c, a) {
        var e := EntryFor(row.path, c, a, strict, sensitive);
        RegisterKeepsWellFormed(routes, row.verb, c, a, e.path, e.compiled);
        assert next == Registered(routes, row.verb, e);
      } else {
        assert next == routes;
      }
      assert WellFormed(next);
      ApplyKeepsWellFormed(next, rows[1..], c, actions, strict, sensitive);
      assert Apply(routes, rows, c, actions, strict, sensitive) == Apply(next, rows[1..], c, actions, strict, sensitive);
    }
  }

  /** The source a row registers under. */
  function RowSource(row: Row, strict: bool, sensitive: bool): string
  {
    PathRegExp(Literal(row.path), strict, sensitive).regex.source
  }

  /** A later registration leaves an entry alone unless it is for the same verb and source. */
  lemma RegisterKeepsEntry(routes: Routes, v: Verb, src: string, x: Entry, w: Verb, e: Entry)
    requires Get(TableOf(routes, v), src) == Some(x)
    requires w != v || e.Source() != src
    ensures Get(TableOf(Registered(routes, w, e), v), src) == Some(x)
  {
    RegisteredDomain(routes, w, e);
    RegisterFrame(routes, w, e, v, src);
    if e.Source() == src {
      FindMeaning(TableOf(routes, v), src);
    }
  }

  /** Registering rows only touches their own sources. */
  lemma {:induction false} ApplyFrame(routes: Routes, rows: seq<Row>, c: Controller, actions: map<string, string>, strict: bool, sensitive: bool, v: Verb, src: string)
    requires forall k :: 0 <= k < |rows| ==> RowSource(rows[k], strict, sensitive) != src
    ensures Get(TableOf(Apply(routes, rows, c, actions, strict, sensitive), v), src) == Get(TableOf(routes, v), src)
    decreases |rows|
  {
    if rows != [] {
      var row := rows[0];
      var a := ActionOf(row, actions);
      if Supports(c, a) {
        RegisterFrame(routes, row.verb, EntryFor(row.path, c, a, strict, sensitive), v, src);
      }
      ApplyFrame(ApplyRow(routes, row, c, actions, strict, sensitive), rows[1..], c, actions, strict, sensitive, v, src);
    }
  }

  /**
   * A supported row ends up bound, for its verb and at its source, to its
   * action on the controller, unless a later supported row of the same verb
   * and source replaces it.
   */
  lemma {:induction false} ApplyBinds(routes: Routes, rows: seq<Row>, c: Controller, actions: map<string, string>, strict: bool, sensitive: bool, i: nat)
    requires i < |rows| && Supports(c, ActionOf(rows[i], actions))
    requires forall j :: i < j < |rows| && Supports(c, ActionOf(rows[j], actions)) ==>
      rows[j].verb != rows[i].verb || RowSource(rows[j], strict, sensitive) != RowSource(rows[i], strict, sensitive)
    ensures Get(TableOf(Apply(routes, rows, c, actions, strict, sensitive), rows[i].verb), RowSource(rows[i], strict, sensitive))
         == Some(EntryFor(rows[i].path, c, ActionOf(rows[i], actions), strict, sensitive))
    decreases |rows|
  {
    var next := ApplyRow(routes, rows[0], c, actions, strict, sensitive);
    if i == 0 {
      var e := EntryFor(rows[0].path, c, ActionOf(rows[0], actions), strict, sensitive);
      RegisterSetsTarget(routes, rows[0].verb, e);
      ApplyKeeps(next, rows[1..], c, actions, strict, sensitive, rows[0].verb, e.Source(), e);
    } else {
      assert forall j :: i - 1 < j < |rows[1..]| ==> rows[1..][j] == rows[j + 1];
      ApplyBinds(next, rows[1..], c, actions, strict, sensitive, i - 1);
    }
  }

  /** An entry that no later supported row of its verb and source replaces survives the rows. */
  lemma {:induction false} ApplyKeeps(routes: Routes, rows: seq<Row>, c: Controller, actions: map<string, string>, strict: bool, sensitive: bool, v: Verb, src: string, x: Entry)
    requires Get(TableOf(routes, v), src) == Some(x)
    requires forall j :: 0 <= j < |rows| && Supports(c, ActionOf(rows[j], actions)) ==>
      rows[j].verb != v || RowSource(rows[j], strict, sensitive) != src
    ensures Get(TableOf(Apply(routes, rows, c, actions, strict, sensitive), v), src) == Some(x)
    decreases |rows|
  {
    if rows != [] {
      var row := rows[0];
      var a := ActionOf(row, actions);
      if Supports(c, a) {
        RegisterKeepsEntry(routes, v, src, x, row.verb, EntryFor(row.path, c, a, strict, sensitive));
      }
      assert forall j :: 0 <= j < |rows[1..]| ==> rows[1..][j] == rows[j + 1];
      ApplyKeeps(ApplyRow(routes, row, c, actions, strict, sensitive), rows[1..], c, actions, strict, sensitive, v, src, x);
    }
  }

  /** A controller that supports none of the rows leaves the table as it was. */
  lemma {:induction false} ApplyNone(routes: Routes, rows: seq<Row>, c: Controller, actions: map<string, string>, strict: bool, sensitive: bool)
    requires forall k :: 0 <= k < |rows| ==> !Supports(c, ActionOf(rows[k], actions))
    ensures Apply(routes, rows, c, actions, strict, sensitive) == routes
    decreases |rows|
  {
    if rows != [] {
      assert !Supports(c, ActionOf(rows[0], actions));
      ApplyNone(routes, rows[1..], c, actions, strict, sensitive);
    }
  }

  /** The rows from `i` on are the row at `i` followed by the rows after it. */
  lemma ApplyNext(routes: Routes, rows: seq<Row>, i: nat, c: Controller, actions: map<string, string>, strict: bool, sensitive: bool)
    requires i < |rows|
    ensures Apply(routes, rows[i..], c, actions, strict, sensitive)
         == Apply(ApplyRow(routes, rows[i], c, actions, strict, sensitive), rows[i + 1..], c, actions, strict, sensitive)
  {
    assert rows[i..][0] == rows[i] && rows[i..][1..] == rows[i + 1..];
  }

  /** The `id` argument of `route.resources`, `':id'` when it is falsy. */
  function IdOrDefault(id: string): string
  {
    if id == "" then ":id" else id
  }

  // ---------------------------------------------------------------------------
  // The router

  class Router {
    var sensitive: bool
    var strict: bool
    var resourceActions: map<string, string>
    var routes: Routes

    predicate Valid()
      reads this
    {
      WellFormed(routes) && ActionsConfigured(resourceActions)
    }

    /** Loading the module, then the first `setupRoute(options)`. */
    constructor (opts: Options)
      ensures Valid() && routes == map[]
      ensures sensitive == opts.urlsCaseSensitive && strict == opts.urlsAllowTrailingSlashes
      ensures resourceActions == Merged(DefaultActions, opts.urlResourceActions)
    {
      sensitive := false;
      strict := false;
      resourceActions := DefaultActions;
      routes := map[];
      new;
      Setup(opts);
    }

    /**
     * `setupRoute(options)`: sets the two flags, merges the action names and
     * empties the table.
     */
    method Setup(opts: Options)
      requires Valid()
      modifies this
      ensures Valid() && routes == map[]
      ensures sensitive == opts.urlsCaseSensitive && strict == opts.urlsAllowTrailingSlashes
      ensures resourceActions == Merged(old(resourceActions), opts.urlResourceActions)
    {
      sensitive := opts.urlsCaseSensitive;
      strict := opts.urlsAllowTrailingSlashes;
      var overrides := opts.urlResourceActions;
      var actions := resourceActions;
      for i := 0 to |overrides|
        invariant actions == Merged(resourceActions, overrides[..i])
      {
        assert overrides[..i + 1][..i] == overrides[..i];
        var (key, value) := overrides[i];
        actions := actions[key := if value != "" then value else if key in actions then actions[key] else ""];
      }
      assert overrides[..|overrides|] == overrides;
      MergedMeaning(resourceActions, overrides);
      resourceActions := actions;
      routes := map[];
    }

    /**
     * `route(path, controller, action, verb)`: the verb defaults to GET and
     * the action to `show` when both are missing; a verb outside the nine,
     * after upper-casing, is refused before the table is touched; otherwise
     * the entry is registered for that verb as `Registered` describes.
     */
    method Route(path: PathSpec, c: Controller, action: string, verb: string) returns (r: Result<(), string>)
      requires Valid()
      modifies this
      ensures Valid()
      ensures sensitive == old(sensitive) && strict == old(strict) && resourceActions == old(resourceActions)
      ensures var a := if action == "" && verb == "" then "show" else action;
              var name := if verb == "" then "GET" else ToUpper(verb);
              match Lookup(name)
              case None => r == Err("Invalid HTTP method: " + name) && routes == old(routes)
              case Some(v) =>
                r == Ok(()) && routes == Registered(old(routes), v, Entry(path, PathRegExp(path, strict, sensitive), Bound(c, a)))
    {
      var a := action;
      var name := verb;
      if a == "" && name == "" {
        a := "show";
        name := "GET";
      }
      name := if name == "" then "GET" else ToUpper(name);
      assert name == (if verb == "" then "GET" else ToUpper(verb));
      var parsed := Lookup(name);
      if parsed.None? {
        return Err("Invalid HTTP method: " + name);
      }
      var compiled := PathRegExp(path, strict, sensitive);
      RegisterKeepsWellFormed(routes, parsed.value, c, a, path, compiled);
      Bind(parsed.value, Entry(path, compiled, Bound(c, a)));
      r := Ok(());
    }

    /**
     * The loop of index.js:207-224 for one entry: the verb asked for gets the
     * entry, a verb with an entry at that source keeps it, HEAD during a GET
     * is registered by the recursive call, and every other verb gets the 405
     * fallback.
     */
    method Bind(verb: Verb, e: Entry)
      modifies this
      ensures routes == Registered(old(routes), verb, e)
      ensures sensitive == old(sensitive) && strict == old(strict) && resourceActions == old(resourceActions)
      decreases if verb == GET then 1 else 0
    {
      ghost var start := routes;
      var k := 0;
      while k < |AllVerbs|
        invariant 0 <= k <= |AllVerbs|
        invariant sensitive == old(sensitive) && strict == old(strict) && resourceActions == old(resourceActions)
        invariant Progress(start, verb, e, routes, k)
      {
        var w := AllVerbs[k];
        if w != verb && Has(TableOf(routes, w), e.Source()) {
          ProgressSkip(start, verb, e, routes, k);
        } else if w == HEAD && verb == GET {
          ghost var mid := routes;
          Bind(HEAD, e);
          ProgressHead(start, e, mid);
        } else {
          ProgressPut(start, verb, e, routes, k);
          routes := routes[w := Put(TableOf(routes, w), if w == verb then e else e.(handler := NotAllowed))];
        }
        k := k + 1;
      }
      ProgressDone(start, verb, e, routes);
    }

    /**
     * `route.resources(url, controller, id)`: the eight rows of the plural
     * resource whose configured action the controller defines, in order.
     */
    method Resources(url: string, c: Controller, id: string)
      requires Valid()
      modifies this
      ensures Valid()
      ensures sensitive == old(sensitive) && strict == old(strict) && resourceActions == old(resourceActions)
      ensures routes == Apply(old(routes), ResourcesRows(url, IdOrDefault(id)), c, resourceActions, strict, sensitive)
    {
      BindRows(ResourcesRows(url, IdOrDefault(id)), c);
    }

    /**
     * `route.resource(url, controller, id)`: the seven rows of the singular
     * resource on the bare URL; `id` plays no part.
     */
    method Resource(url: string, c: Controller, id: string)
      requires Valid()
      modifies this
      ensures Valid()
      ensures sensitive == old(sensitive) && strict == old(strict) && resourceActions == old(resourceActions)
      ensures routes == Apply(old(routes), ResourceRows(url), c, resourceActions, strict, sensitive)
    {
      BindRows(ResourceRows(url), c);
    }

    /** The lines of a resource table, in order. */
    method BindRows(rows: seq<Row>, c: Controller)
      requires Valid()
      modifies this
      ensures Valid()
      ensures sensitive == old(sensitive) && strict == old(strict) && resourceActions == old(resourceActions)
      ensures routes == Apply(old(routes), rows, c, resourceActions, strict, sensitive)
    {
      for i := 0 to |rows|
        invariant Valid()
        invariant sensitive == old(sensitive) && strict == old(strict) && resourceActions == old(resourceActions)
        invariant Apply(routes, rows[i..], c, resourceActions, strict, sensitive)
               == Apply(old(routes), rows, c, resourceActions, strict, sensitive)
      {
        ApplyNext(routes, rows, i, c, resourceActions, strict, sensitive);
        BindRow(rows[i], c);
      }
      assert rows[|rows|..] == [];
    }

    /** One line of a resource table: `route(...)` when the controller defines the configured action. */
    method BindRow(row: Row, c: Controller)
      requires Valid()
      modifies this
      ensures Valid()
      ensures sensitive == old(sensitive) && strict == old(strict) && resourceActions == old(resourceActions)
      ensures routes == ApplyRow(old(routes), row, c, resourceActions, strict, sensitive)
    {
      var a := ActionOf(row, resourceActions);
      if Supports(c, a) {
        ParseAnyCase(row.verb);
        var _ := Route(Literal(row.path), c, a, Name(row.verb));
      }
    }

    /**
     * The dispatcher: the entries of the request method's table are tried in
     * insertion order and the first whose pattern matches the path is used;
     * its captures become the parameters, and its handler is invoked or, for
     * a fallback, a 405 with the Allow list is answered.
     */
    method Dispatch(verbName: string, url: string, m: Matcher) returns (d: Disposition)
      requires Valid()
      ensures d == Dispatched(routes, verbName, url, m)
    {
      var es := TableFor(routes, verbName);
      var path := Pathname(url);
      var k := 0;
      while k < |es|
        invariant 0 <= k <= |es|
        invariant forall j :: 0 <= j < k ==> m(es[j].compiled.regex, path).None?
      {
        var caps := m(es[k].compiled.regex, path);
        if caps.Some? {
          FirstMatchAt(es, path, m, k);
          TableForNonEmpty(routes, verbName);
          d := Answer(verbName, es[k], caps.value);
          return;
        }
        NoMatchExtends(es, path, m, k);
        k := k + 1;
      }
      FirstMatchAt(es, path, m, k);
      d := Next;
    }

    /** The body of the dispatcher's loop once an entry has matched (index.js:326-341). */
    method Answer(verbName: string, e: Entry, caps: seq<Option<string>>) returns (d: Disposition)
      requires Valid() && routes != map[]
      ensures d == Requests.Answer(routes, verbName, e, caps)
    {
      var p := BuildParams(e.compiled.keys, caps);
      if p.Err? {
        return BadParameter(p.error);
      }
      match e.handler {
        case Bound(c, a) =>
          d := if a in c.actions then Invoke(c, a, p.value) else MissingAction(c, a);
        case NotAllowed =>
          var allow := GetAllowedMethods(ForRequest(e));
          d := MethodNotAllowed(NotAllowedMessage(verbName), allow.value, p.value);
      }
    }

    /**
     * `getAllowedMethods(path)`: the source of the pattern, of the routed
     * request or of the compiled path, then every verb whose table binds that
     * source, in declaration order.
     */
    method GetAllowedMethods(q: Query) returns (r: Result<seq<Verb>, string>)
      ensures r == AllowedFor(routes, q, strict, sensitive)
    {
      var src: string;
      match q {
        case ForRequest(e) =>
          src := e.compiled.regex.source;
        case ForPath(spec) =>
          var c := PathRegExp(spec, strict, sensitive);
          if !spec.Pattern? && c.keys != [] {
            return Err("TypeError: keys is undefined");
          }
          src := c.regex.source;
      }
      r := CollectAllowed(src);
    }

    /** The loop of index.js:115-121: every verb whose table binds `src`, in declaration order. */
    method CollectAllowed(src: string) returns (r: Result<seq<Verb>, string>)
      ensures r == AllowList(routes, src)
    {
      var allow: seq<Verb> := [];
      for k := 0 to |AllVerbs|
        invariant allow == AllowedAmong(routes, src, AllVerbs[..k])
        invariant forall v :: Index(v) < k ==> v in routes
      {
        var w := AllVerbs[k];
        assert Index(w) == k;
        if w !in routes {
          return Err("TypeError: route table missing");
        }
        AllowedAmongSnoc(routes, src, AllVerbs[..k], w);
        assert AllVerbs[..k + 1] == AllVerbs[..k] + [w];
        var g := Get(routes[w], src);
        if g.Some? && g.value.handler.Bound? {
          allow := allow + [w];
        }
      }
      assert AllVerbs[..|AllVerbs|] == AllVerbs;
      r := Ok(allow);
    }

    /**
     * `urlFor(controller, action, ...args)`: the first entry, over the verbs
     * in declaration order and each table in insertion order, that binds the
     * action to the controller, resolved with the arguments; "" when there
     * is none.
     */
    method UrlFor(t: Target, action: string, args: seq<Arg>) returns (r: Result<string, string>)
      ensures r == UrlOf(routes, t, action, args)
    {
      if !Truthy(t) || action == "" {
        return Err("Expects controller and action");
      }
      var k := 0;
      while k < |AllVerbs|
        invariant 0 <= k <= |AllVerbs|
        invariant FindRoute(routes, t, action) == FindAmong(routes, AllVerbs[k..], t, action)
      {
        FindAmongStep(routes, AllVerbs, k, t, action);
        var found := FindIn(TableOf(routes, AllVerbs[k]), t, action);
        if found.Some? {
          r := InterpolateUrl(found.value.path, args);
          return;
        }
        k := k + 1;
      }
      r := Ok("");
    }
  }

  /** The inner loop of `urlFor`: the first entry of one table that binds the action to the controller. */
  method FindIn(es: seq<Entry>, t: Target, action: string) returns (r: Option<Entry>)
    ensures r == FindEntry(es, t, action)
  {
    var j := 0;
    while j < |es|
      invariant 0 <= j <= |es|
      invariant FindEntry(es, t, action) == FindEntry(es[j..], t, action)
    {
      assert es[j..][0] == es[j] && es[j..][1..] == es[j + 1..];
      if Targets(es[j].handler, t, action) {
        return Some(es[j]);
      }
      j := j + 1;
    }
    r := None;
  }

  lemma FindAmongStep(routes: Routes, vs: seq<Verb>, k: nat, t: Target, action: string)
    requires k < |vs|
    ensures FindAmong(routes, vs[k..], t, action) ==
      match FindEntry(TableOf(routes, vs[k]), t, action)
      case Some(e) => Some(e)
      case None => FindAmong(routes, vs[k + 1..], t, action)
  {
    assert vs[k..][0] == vs[k] && vs[k..][1..] == vs[k + 1..];
  }

  /** `interpolateUrl(path, args)`: the arguments flattened, then the branch for the kind of path. */
  method InterpolateUrl(path: PathSpec, args: seq<Arg>) returns (r: Result<string, string>)
    ensures r == Interpolate(path, args)
  {
    var f := FlattenArguments(args);
    match path {
      case Literal(text) =>
        r := Ok(InterpolatePath(text, f));
      case Pattern(re) =>
        var url := InterpolateRegex(re.source, f);
        r := Ok(url);
      case Alternatives(_) =>
        r := Err("TypeError: url.replace is not a function");
    }
  }

  // ---------------------------------------------------------------------------
  // Helpers of the proofs above

  /** After a registration every verb has an entry at the source. */
  lemma SlotHas(start: Routes, verb: Verb, w: Verb, e: Entry)
    ensures Has(Slot(start, verb, w, e), e.Source())
  {
    var es := TableOf(start, w);
    PutGet(es, e, e.Source());
    PutGet(es, e.(handler := NotAllowed), e.Source());
    FindMeaning(Slot(start, verb, w, e), e.Source());
    FindMeaning(es, e.Source());
  }

  /**
   * The state of the registration loop before verb number `k`: the verbs
   * before it hold their final tables; the others are untouched, or, once the
   * recursive HEAD registration of a GET has run, final as well.
   */
  predicate Progress(start: Routes, verb: Verb, e: Entry, current: Routes, k: nat)
  {
    (forall w :: Index(w) < k ==> w in current && current[w] == Slot(start, verb, w, e)) &&
    (forall w :: Index(w) >= k ==>
      TableOf(current, w) == TableOf(start, w) ||
      (verb == GET && k >= 2 && w in current && current[w] == Slot(start, verb, w, e)))
  }

  /** A verb that already has an entry at the source is skipped and keeps what `Slot` gives it. */
  lemma ProgressSkip(start: Routes, verb: Verb, e: Entry, current: Routes, k: nat)
    requires k < |AllVerbs| && Progress(start, verb, e, current, k)
    requires AllVerbs[k] != verb && Has(TableOf(current, AllVerbs[k]), e.Source())
    ensures Progress(start, verb, e, current, k + 1)
  {
    var w := AllVerbs[k];
    assert Index(w) == k;
    if TableOf(current, w) == TableOf(start, w) {
      assert Has(TableOf(start, w), e.Source());
    }
    assert TableOf(current, w) != [];
    assert w in current && current[w] == Slot(start, verb, w, e);
    ProgressAdvance(start, verb, e, current, k, current[w]);
    assert current[w := current[w]] == current;
  }

  /** The verb asked for, and every verb without an entry at the source, gets its entry put in place. */
  lemma ProgressPut(start: Routes, verb: Verb, e: Entry, current: Routes, k: nat)
    requires k < |AllVerbs| && Progress(start, verb, e, current, k)
    requires !(AllVerbs[k] != verb && Has(TableOf(current, AllVerbs[k]), e.Source()))
    requires !(AllVerbs[k] == HEAD && verb == GET)
    ensures var w := AllVerbs[k];
      Progress(start, verb, e, current[w := Put(TableOf(current, w), if w == verb then e else e.(handler := NotAllowed))], k + 1)
  {
    var w := AllVerbs[k];
    PutUntouched(start, verb, e, current, k);
    var es := TableOf(current, w);
    PutIsSlot(start, verb, w, e, es);
    ProgressAdvance(start, verb, e, current, k, Put(es, if w == verb then e else e.(handler := NotAllowed)));
  }

  /** Giving verb number `k` its final table moves the loop on by one verb. */
  lemma ProgressAdvance(start: Routes, verb: Verb, e: Entry, current: Routes, k: nat, table: seq<Entry>)
    requires k < |AllVerbs| && Progress(start, verb, e, current, k)
    requires table == Slot(start, verb, AllVerbs[k], e)
    ensures Progress(start, verb, e, current[AllVerbs[k] := table], k + 1)
  {
    var w := AllVerbs[k];
    assert Index(w) == k;
    var next := current[w := table];
    forall x | Index(x) < k + 1
      ensures x in next && next[x] == Slot(start, verb, x, e)
    {
      if x != w {
        assert Index(x) < k;
      }
    }
    forall x | Index(x) >= k + 1
      ensures TableOf(next, x) == TableOf(start, x) ||
        (verb == GET && k + 1 >= 2 && x in next && next[x] == Slot(start, verb, x, e))
    {
      assert x != w && TableOf(next, x) == TableOf(current, x);
    }
  }

  /** A verb the loop does not skip still has the table it started with. */
  lemma PutUntouched(start: Routes, verb: Verb, e: Entry, current: Routes, k: nat)
    requires k < |AllVerbs| && Progress(start, verb, e, current, k)
    requires !(AllVerbs[k] != verb && Has(TableOf(current, AllVerbs[k]), e.Source()))
    ensures TableOf(current, AllVerbs[k]) == TableOf(start, AllVerbs[k])
  {
    var w := AllVerbs[k];
    assert Index(w) == k;
    SlotHas(start, verb, w, e);
  }

  /** Putting the entry, or its fallback, into an untouched table gives what `Slot` prescribes. */
  lemma PutIsSlot(start: Routes, verb: Verb, w: Verb, e: Entry, es: seq<Entry>)
    requires es == TableOf(start, w)
    requires !(w != verb && Has(es, e.Source())) && !(w == HEAD && verb == GET)
    ensures Put(es, if w == verb then e else e.(handler := NotAllowed)) == Slot(start, verb, w, e)
  {
  }

  /**
   * The recursive HEAD registration in the middle of a GET registration gives
   * every verb what the GET registration itself prescribes.
   */
  lemma ProgressHead(start: Routes, e: Entry, mid: Routes)
    requires Progress(start, GET, e, mid, 1)
    requires !Has(TableOf(mid, HEAD), e.Source())
    ensures Progress(start, GET, e, Registered(mid, HEAD, e), 2)
  {
    var r := Registered(mid, HEAD, e);
    var src := e.Source();
    assert Index(GET) == 0 && Index(HEAD) == 1;
    RegisteredDomain(mid, HEAD, e);
    assert TableOf(mid, HEAD) == TableOf(start, HEAD);
    assert mid[GET] == Put(TableOf(start, GET), e);
    PutGet(TableOf(start, GET), e, src);
    FindMeaning(mid[GET], src);
    assert r[GET] == mid[GET];
    forall w | Index(w) >= 2
      ensures r[w] == Slot(start, GET, w, e)
    {
      assert TableOf(mid, w) == TableOf(start, w);
    }
    HeadProgress(start, e, r);
  }

  lemma HeadProgress(start: Routes, e: Entry, r: Routes)
    requires forall w :: w in r
    requires r[GET] == Slot(start, GET, GET, e) && r[HEAD] == Slot(start, GET, HEAD, e)
    requires forall w :: Index(w) >= 2 ==> r[w] == Slot(start, GET, w, e)
    ensures Progress(start, GET, e, r, 2)
  {
    assert Index(GET) == 0 && Index(HEAD) == 1;
  }

  /** After the ninth verb the table is the one `Registered` describes. */
  lemma ProgressDone(start: Routes, verb: Verb, e: Entry, current: Routes)
    requires Progress(start, verb, e, current, |AllVerbs|)
    ensures current == Registered(start, verb, e)
  {
    RegisteredDomain(start, verb, e);
    assert forall w :: w in current;
  }

  /** The first match is at `k` when entry `k` matches and none before it does, or when none does at all. */
  lemma FirstMatchAt(es: seq<Entry>, path: string, m: Matcher, k: nat)
    requires k <= |es| && forall j :: 0 <= j < k ==> m(es[j].compiled.regex, path).None?
    requires k < |es| ==> m(es[k].compiled.regex, path).Some?
    ensures FirstMatch(es, path, m) == k
  {
  }

  lemma NoMatchExtends(es: seq<Entry>, path: string, m: Matcher, k: nat)
    requires k < |es| && forall j :: 0 <= j < k ==> m(es[j].compiled.regex, path).None?
    requires m(es[k].compiled.regex, path).None?
    ensures forall j :: 0 <= j < k + 1 ==> m(es[j].compiled.regex, path).None?
  {
  }

  /** A request method with a non-empty table has a filled route table. */
  lemma TableForNonEmpty(routes: Routes, verbName: string)
    requires TableFor(routes, verbName) != []
    ensures routes != map[]
  {
  }

  /** The Allow list grows verb by verb. */
  lemma {:induction false} AllowedAmongSnoc(routes: Routes, src: string, vs: seq<Verb>, v: Verb)
    ensures AllowedAmong(routes, src, vs + [v]) ==
      AllowedAmong(routes, src, vs) + (if Binds(routes, v, src) then [v] else [])
    decreases |vs|
  {
    var last := if Binds(routes, v, src) then [v] else [];
    if vs == [] {
      assert vs + [v] == [v];
      assert AllowedAmong(routes, src, [v]) == last + AllowedAmong(routes, src, []);
    } else {
      var head := if Binds(routes, vs[0], src) then [vs[0]] else [];
      AllowedAmongCons(routes, src, vs, [v]);
      AllowedAmongSnoc(routes, src, vs[1..], v);
      ConcatAssoc(head, AllowedAmong(routes, src, vs[1..]), last);
    }
  }

  lemma AllowedAmongCons(routes: Routes, src: string, vs: seq<Verb>, ws: seq<Verb>)
    requires vs != []
    ensures var head := if Binds(routes, vs[0], src) then [vs[0]] else [];
      AllowedAmong(routes, src, vs + ws) == head + AllowedAmong(routes, src, vs[1..] + ws) &&
      AllowedAmong(routes, src, vs) == head + AllowedAmong(routes, src, vs[1..])
  {
    assert (vs + ws)[0] == vs[0] && (vs + ws)[1..] == vs[1..] + ws;
  }
}
