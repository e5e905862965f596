# k-router in Dafny

A model of the routing engine of k-router, a class-based router middleware
for Connect (`index.js`). Routes bind a path, given as a string, an array of
strings or a RegExp, to an action of a controller object for one HTTP verb.
The router keeps one table per verb, keyed by the source text of the
compiled regular expression, in insertion order. A registration for one verb
also fills every other verb's table at that source with a "405 Method Not
Allowed" fallback, unless that verb already has an entry there. A request
goes to the first entry of its method's table whose pattern matches. A
fallback entry answers 405 with an `Allow` list of the verbs really bound at
that route. `urlFor` goes the other way: it finds the route of a
controller's action and rebuilds a URL from the stored path.

The project has one module per part of the engine:

- `Sequences`: a few facts about sequence concatenation that the other modules' proofs share.
- `Verbs`: the nine verbs of `config.methods`, in their declaration order, and verb-name parsing.
- `Patterns`: the pattern compiler `pathRegExp` and its token grammar. Each pass of the compiler is one function, and the passes run in the source's order.
- `Table`: the route table as a value, with registration (`Registered`) and the Allow list (`Allowed`). It also holds the invariant `WellFormed`: all nine tables list the same sources in the same order, and every source has at least one real entry.
- `Params`: percent-decoding of captures and the pairing of captures with keys into `req.params`.
- `Resolver`: `flattenArguments` and both branches of `interpolateUrl`.
- `Requests`: the dispatcher's decision as a function, `getAllowedMethods`, and the reverse lookup of `urlFor`.
- `Routing`: the class `Router`, whose fields are the configuration and `route.routes`. Its methods (`Setup`, `Route`, `Resources`, `Resource`, `Dispatch`, `GetAllowedMethods`, `UrlFor`) are proved against the functions above and keep the table well formed.

Modelling choices:

- The regular-expression engine is a parameter, `Matcher`. The model computes the source text and keys of every pattern but never runs one.
- A controller is a value with an identity, a `name` and the set of action names it defines.
- A string `""` stands for every falsy value: a missing verb, action, id or argument.

## Model

| member | source | states |
|---|---|---|
| Verbs.Index | index.js:45-55 | every verb has exactly one position in the declaration order of `config.methods` |
| Verbs.Lookup | index.js:199 | a name is accepted exactly when it is one of the nine verb names, spelled exactly |
| Verbs.ToUpper | index.js:198 | upper-casing keeps the length and maps each character on its own |
| Verbs.ParseAnyCase | index.js:198-199 | every verb is accepted in upper or lower case |
| Patterns.WordLenMeaning | index.js:34 | `\w+` takes the longest run of word characters |
| Patterns.CaptureLenMeaning | index.js:34 | the inline group `\(.*?\)` matches exactly when a `)` follows with no line terminator before it, and ends at the first such `)` |
| Patterns.TokenAt | index.js:34 | a token match is a prefix of the text and has a non-empty word-character name |
| Patterns.TokenAtComplete | index.js:34 | a text that starts with the spelling of a token whose name is a non-empty run of word characters always has a match at its start |
| Patterns.TokenRegexShape | index.js:84-94 | an optional token puts its slash inside the `(?:` group and ends in `?`; a required one keeps the slash in front and ends with `)`; a star ends the text in `(/*)?` |
| Patterns.TokenizeLossless | index.js:84 | cutting a path into tokens and plain characters loses nothing: the pieces spell the path again |
| Patterns.KeysFollowTokens | index.js:84-85 | one key per token, left to right, with the token's name; `optional` is true exactly when the token has `?` |
| Patterns.PathRegExp | index.js:72-101 | a RegExp comes back unchanged with no key; a string or an array gives a source anchored by `^` and `$`, case-insensitive unless `sensitive` |
| Patterns.TrailingSlashUnlessStrict | index.js:78 | the non-strict source is the strict one with `\/?` before the final `$`, and both have the same keys |
| Patterns.PlainPathSource | index.js:76-100 | a path with no token, star or `/(` compiles to `^`, the path with `/` and `.` escaped, `\/?` unless strict, `$`, and no key |
| Patterns.GroupSlashesIdentity | index.js:80 | the `/(` pass changes nothing in a text without `/(` |
| Patterns.PassesPerPiece | index.js:84-98 | the token, escape and star passes act on each piece of the path independently |
| Patterns.UnescapeEscape | index.js:96 | escaping `/` and `.` loses nothing: it can be undone |
| Patterns.EscapeIdentity | index.js:96 | a text without `/` or `.` is not changed by the escape pass |
| Patterns.StarTokenGroups | index.js:93-98 | the regular-expression text of a token with `*` ends in `(\/(.*))?` once the escape and star passes have run |
| Table.Sources | index.js:214 | the keys of a table, in insertion order, one per entry |
| Table.Find | index.js:210 | the position of a key is that of its first entry, or the table's length when the key is absent |
| Table.Get | index.js:117 | a lookup succeeds exactly when the key is in the table, and then returns an entry of the table stored at that key |
| Table.PutGet | index.js:214 | after a store, the key holds the new entry; an existing key keeps its place and a new key goes last; no other key changes |
| Table.FindPrefix | index.js:214 | appending an entry does not move a key already present |
| Table.SlotSources | index.js:207-224 | a registration gives each verb's table the new source, last, when it lacked it, and otherwise leaves its sources alone |
| Table.RegisteredDomain | index.js:207-224 | after a registration every verb has a table, as `Slot` prescribes for it |
| Table.RegisterSetsTarget | index.js:214-222 | the verb registered holds the new entry, with its controller and action, at the source |
| Table.RegisterFillsOthers | index.js:210-222 | every other verb (HEAD during a GET excepted) keeps an entry it already has at the source, and otherwise gets the 405 fallback |
| Table.RegisterGetBindsHead | index.js:210-212 | a GET registration binds HEAD to the same action only when HEAD has no entry at the source; an earlier fallback blocks it |
| Table.RegisterFrame | index.js:207-224 | no other source changes, and a source keeps its place in every table |
| Table.AllowedAmongMeaning | index.js:115-121 | a verb is listed exactly when it is among the verbs visited and binds a real entry at the source |
| Table.AllowedAmongOrdered | index.js:116 | the list keeps the order of the verbs visited |
| Table.AllowedMeaning | index.js:115-121 | the Allow list holds exactly the verbs with a non-fallback entry at the source, in declaration order |
| Table.RegisterSources | index.js:207-224 | on a well-formed table every verb has the same sources after a registration, the new source last when it is new |
| Table.FindMeaning | index.js:210 | `table[src]` is defined exactly when `src` is one of the table's keys |
| Table.RegisterKeepsWellFormed | index.js:207-224 | registration keeps the table well formed, and the new source's Allow list names the verb registered |
| Table.RegisterSameSources | index.js:207-224 | after a registration all nine tables list the same distinct sources in the same order |
| Table.RegisterKeepsBound | index.js:207-224 | after registering a real entry, every source still has some verb with a real entry |
| Table.AllowedNonEmpty | index.js:105-121 | in a well-formed table every stored source has a non-empty Allow list |
| Table.SourcesShared | index.js:207-224 | in a well-formed table a source stored for one verb is stored for every verb |
| Params.DecodePlain | index.js:331 | a capture without `%` decodes to itself |
| Params.DecodeEncode | index.js:331 | decoding undoes `encodeURIComponent` on ASCII text |
| Params.PercentDecode | index.js:331 | decoding never lengthens a capture, and a capture it does not shorten comes back unchanged |
| Params.DecodeCapture | index.js:331 | an undefined capture stays undefined; a string decodes, or fails with that string as the bad capture |
| Params.DecodeAll | index.js:328-331 | decoding keeps one value per capture |
| Params.DecodeAllMeaning | index.js:328-331 | decoding succeeds exactly when every capture decodes; value i is capture i decoded; otherwise the error is that of the first capture that does not decode |
| Params.DecodeAllFails | index.js:331 | once a capture fails to decode, the whole parameter list fails with that error |
| Params.BuildParams | index.js:326-339 | the parameter loop computes `ParamsOf`: the decoded captures paired with the keys, or the capture that cannot be decoded |
| Params.NamedUpToDomain | index.js:334-335 | the named parameters are exactly the names of the keys that received a capture |
| Params.NamedUpToValue | index.js:334-335 | capture k is stored under the name of key k when no later key has the same name |
| Params.PairedMeaning | index.js:334-338 | capture i+1 goes under the name of key i, and the captures past the last key are pushed in order |
| Params.KeylessParams | index.js:334-338 | without keys the parameters exist exactly when every capture decodes; nothing is named and positional value i is capture i decoded |
| Params.UnnamedCaptures | index.js:334-338 | a route without keys gets its captures as positional parameters |
| Resolver.FlattenArguments | index.js:171-184 | the reduce spreads the arrays and values into the array part; only the names of objects after the last non-object argument survive |
| Resolver.PositionalsAppend | index.js:179 | the array part of two argument lists is the two array parts one after the other |
| Resolver.NamedTailOrigin | index.js:173-181 | every surviving name comes from an object argument followed only by objects: a later array or value drops it |
| Resolver.NamedTailKeeps | index.js:174-177 | an object's names survive when only objects that do not rename them follow |
| Resolver.NatToString | index.js:151 | the placeholder number is written in non-empty decimal digits |
| Resolver.NatToStringValue | index.js:151 | the placeholder `:i` reads back as `i` |
| Resolver.GroupLen | index.js:146 | a group match is `(`, at least one character other than `)`, then the first `)` |
| Resolver.InterpolateRegex | index.js:144-155 | the replace with its group counter computes `InterpolateSource`: `^` and a final `?$` or `$` vanish, `\/` becomes `/`, and each group takes the next positional argument or `:i` |
| Resolver.SegmentsResolve | index.js:145-155 | a RegExp made of `\/(…)` segments and an optional slash resolves to `/`, then each group's argument or `:i`, joined by `/`, then `/` |
| Resolver.PlainSourceResolves | index.js:146-149 | the strict pattern of a plain path reads back as the path |
| Resolver.WildcardsByStar | index.js:165-166 | a wildcard with no value is written back as `*`, leaving the text unchanged |
| Resolver.UnsuppliedTokensVerbatim | index.js:157-164 | tokens with no value that are not optional are written back verbatim |
| Resolver.InterpolatePath | index.js:157-167 | arguments that supply no token of the path and leave the wildcards as `*` give the path back unchanged |
| Resolver.NoArgumentsKeepPath | index.js:157-167 | without arguments, a path without optional tokens resolves to itself |
| Resolver.InterpolateTokensAppend | index.js:157 | tokens are replaced one by one, independently of each other |
| Resolver.TokenResolves | index.js:158-164 | a supplied token becomes `/` and its value, whatever its own text; an absent optional token becomes `/`; an absent required one stays as written |
| Requests.Pathname | index.js:314 | the path of a request URL is the prefix before its query or fragment |
| Requests.FirstMatch | index.js:319-322 | the entry used is the first of the table, in insertion order, whose pattern matches |
| Requests.Dispatched | index.js:319-345 | an action is invoked only when the controller defines it, and a 405 carries the message for the verb requested |
| Requests.Answer | index.js:326-341 | a matched entry never falls through to `next()`; a capture that cannot be decoded fails the request; otherwise a bound entry invokes its action, or reports it missing, and a fallback answers 405 with the route's Allow list; both get the parameters |
| Requests.DispatchedNext | index.js:319-345 | a request goes to `next()` exactly when no pattern of its method's table matches its path |
| Requests.DispatchedInvoke | index.js:319-341 | an action is invoked only for the first matching entry of the request's table, and that entry binds that action |
| Requests.GetOwnEntry | index.js:117 | in a table without repeated sources an entry is the one stored under its own source |
| Requests.DispatchedNotAllowed | index.js:57-64 | on a well-formed table, a 405 carries a non-empty Allow list in declaration order that never names the verb requested |
| Requests.AllowedForRequest | index.js:110-121 | for a routed request the Allow list holds exactly the verbs bound at its route; on the emptied table the lookup throws |
| Requests.AllowedForNamedPath | index.js:113 | a string path with a named parameter makes `getAllowedMethods` throw, because it compiles without a keys array |
| Requests.AllowHeaderSplit | index.js:61 | the `Allow` header lists the verbs in order, separated by ", " |
| Requests.FindEntry | index.js:131-136 | the entry found is in the table and names the controller and action; none is found exactly when no entry does |
| Requests.FindEntryFirst | index.js:131-136 | the entry found in a table is the earliest inserted one binding the action |
| Requests.FindAmongMeaning | index.js:130-137 | the search over the verbs finds an entry naming the controller and action, or there is none in their tables |
| Requests.FindRouteMeaning | index.js:130-139 | `urlFor` finds an entry binding the action to the controller (by identity or by name), and none exactly when no entry does |
| Requests.FindAmongFirst | index.js:130-137 | the entry found comes from the first table, in the order of the verbs searched, that binds the action, and is the earliest binding entry there |
| Requests.FindRouteFirst | index.js:130-137 | `urlFor` takes the earliest binding entry of the first verb, in declaration order, whose table binds the action; no earlier verb's table binds it |
| Requests.UrlOfMeaning | index.js:126-139 | `urlFor` throws only for a missing controller or action or an array path; it returns "" when no route binds the action; fallback entries never bind one |
| Routing.MergedMeaning | index.js:357-359 | merging the overrides keeps every action, changes a name only to a truthy override, and keeps every action named |
| Routing.MergedLastTruthy | index.js:357-359 | an action's name is the value of its last truthy override |
| Routing.MergedNoTruthy | index.js:357-359 | an action with no truthy override keeps its configured name, or is "" when only falsy overrides add it |
| Routing.ApplyKeepsWellFormed | index.js:257-264 | binding the rows of a resource keeps the table well formed |
| Routing.ApplyFrame | index.js:257-264 | the rows of a resource touch only their own sources |
| Routing.ApplyBinds | index.js:257-264 | each row whose configured action the controller defines ends up bound, for its verb at its source, to that action, unless a later row of the same verb and source replaces it |
| Routing.ApplyKeeps | index.js:257-264 | an entry that no later row of its verb and source replaces survives the rows |
| Routing.ApplyNone | index.js:257-264 | a controller that defines none of the actions leaves the table as it was |
| Routing.Router.constructor | index.js:352-360 | the first `setupRoute` empties the table, sets both flags and merges the overrides into the default action names |
| Routing.Router.Setup | index.js:352-362 | `setupRoute` sets the two flags from the options, merges the action names and empties the table |
| Routing.Router.Route | index.js:192-228 | the action defaults to `show` and the verb to GET; a verb outside the nine after upper-casing throws "Invalid HTTP method: X" and leaves the table alone; otherwise the table is `Registered` with the compiled path, and stays well formed |
| Routing.Router.Bind | index.js:207-224 | the loop over the nine verbs, with the recursive HEAD registration, leaves exactly the table `Registered` describes |
| Routing.Router.Resources | index.js:254-266 | `route.resources` binds list, create, new, show, update (PUT, PATCH), destroy and edit, in that order, each only when the controller defines its configured action; the id defaults to `:id` |
| Routing.Router.Resource | index.js:278-289 | `route.resource` binds its seven rows on the bare URL in order, each only when the controller defines its configured action; `id` plays no part |
| Routing.Router.BindRows | index.js:257-264 | the rows are bound one after another, giving `Apply` of the rows |
| Routing.Router.BindRow | index.js:257 | one row calls `route` exactly when the controller defines its configured action |
| Routing.Router.Dispatch | index.js:312-346 | the dispatcher's loop computes `Dispatched`: first match, parameters, and invoke, 405 or `next()` |
| Routing.Router.Answer | index.js:326-341 | the parameter loop and the handler call give `Requests.Answer` for the entry matched |
| Routing.Router.GetAllowedMethods | index.js:105-122 | `getAllowedMethods` returns `AllowedFor` for the source of a request's route or of a compiled path |
| Routing.Router.CollectAllowed | index.js:115-121 | the loop over the verbs collects the Allow list, or throws when a verb has no table |
| Routing.Router.UrlFor | index.js:126-140 | the nested loops return `UrlOf`: the first binding entry over the verbs, then its path interpolated |
| Routing.FindIn | index.js:131-136 | the inner loop over one verb's table returns `FindEntry`, the earliest entry binding the action |
| Routing.InterpolateUrl | index.js:142-169 | `interpolateUrl` flattens the arguments, then takes the RegExp branch or the string branch; an array path throws |

## Left out

- The HTTP plumbing is not modelled: `req`, `res`, `next`, `res.setHeader`, `statusCode` and `next(err)`. The dispatcher returns a `Disposition` value, and the 405 answer carries its message and Allow list.
- The JavaScript regular-expression engine is a parameter (`Matcher`). Which paths a pattern matches is not modelled, only the source text and keys it is built from.
- `RegExp.prototype.source` is taken to be the text passed to `new RegExp`. The engine's own escaping of that text is not modelled.
- `url.parse(url).pathname` becomes cutting the URL at the first `?` or `#`. Full URL parsing is not modelled.
- `Params.PercentDecode` handles only single-byte escapes below `%80`. Multi-byte UTF-8 escapes are treated as a URIError.
- `Verbs.ToUpper` upper-cases ASCII letters only; Unicode case mapping is not modelled.
- A user-supplied `urlMethodNotAllowedErrorHandler` is not modelled. The 405 is always the default handler's answer.
- A controller is an identity, a name and a set of action names. Arbitrary property lookups on it, and calling `controller[action]`, are not modelled; an action missing at dispatch time becomes `MissingAction`.
- Falsy values other than the empty string (`0`, `null`, `false`) are modelled as `""`.
- The state before the first `setupRoute` is not modelled. There, `route.routes` is undefined and `route` fills it lazily. The model starts from the table `setupRoute` empties.
- The override object of `urlResourceActions` is modelled as a list of (key, value) pairs in its enumeration order.
- JavaScript array quirks of `req.params` and of the flattened arguments are not modelled: a named property `length`, numeric property names, and the enumeration order of integer-like keys.
- `urlFor` and `interpolateUrl` leak the globals `method`, `i` and `name` in the source. Those writes are not modelled.
- Routing.Router.Resources and Routing.Router.Resource: the eight (seven) `if (controller[...]) route(...)` lines of the source are written as one loop (`BindRows`) over the table of rows, with the same calls in the same order.
- Resolver.NamedValue: `args[key]` in the source also finds what the flattened arguments inherit from `Array.prototype` (`sort`, `keys`, `values`, `entries`, `map`, `filter`, `find`, `fill`, `at`, `join`, …). With no argument of that name, a token such as `:sort` is replaced by the text of the built-in function. The model reads own properties only, so such a token counts as absent.
- Resolver.UnsuppliedTokensVerbatim: holds in the source only for token names that are not inherited `Array.prototype` properties, for the reason given under `Resolver.NamedValue`.
- Resolver.NoArgumentsKeepPath: holds in the source only for paths whose token names are not inherited `Array.prototype` properties; "/items/:sort" with no arguments does not resolve to itself there.
- Resolver.InterpolatePath: same limitation as `Resolver.NoArgumentsKeepPath`.
- Table.Get: a route table is a plain object, so `table[src]` also finds inherited `Object.prototype` properties. A source spelled `constructor` counts as present at index.js:210, so no 405 fallbacks are added for it. It is also truthy at index.js:117, so every verb is listed in its Allow list. The model's tables hold only what was stored.
- Requests.FirstMatch: the for-in at index.js:319 visits integer-like keys first, in numeric order, and the other keys after them in insertion order. The model tries every source in insertion order, so a pattern whose source is integer-like, such as `new RegExp('404')`, is tried later than the source would try it.
