/**
 * The nine HTTP verbs the router accepts (`config.methods` in index.js), in their
 * declaration order, which is also the order every `for (verb in config.methods)`
 * loop of the router visits them.
 */
module Verbs {
  import opened Wrappers

  datatype Verb = GET | HEAD | POST | PUT | DELETE | TRACE | OPTIONS | CONNECT | PATCH

  /** The declaration order of `config.methods`. */
  const AllVerbs: seq<Verb> := [GET, HEAD, POST, PUT, DELETE, TRACE, OPTIONS, CONNECT, PATCH]

  function Name(v: Verb): string
  {
    match v
    case GET => "GET"
    case HEAD => "HEAD"
    case POST => "POST"
    case PUT => "PUT"
    case DELETE => "DELETE"
    case TRACE => "TRACE"
    case OPTIONS => "OPTIONS"
    case CONNECT => "CONNECT"
    case PATCH => "PATCH"
  }

  /** Position of a verb in the declaration order. */
  function Index(v: Verb): (i: nat)
    ensures i < |AllVerbs| && AllVerbs[i] == v
    ensures forall j :: 0 <= j < |AllVerbs| && AllVerbs[j] == v ==> j == i
  {
    match v
    case GET => 0
    case HEAD => 1
    case POST => 2
    case PUT => 3
    case DELETE => 4
    case TRACE => 5
    case OPTIONS => 6
    case CONNECT => 7
    case PATCH => 8
  }

  /**
   * Exact, case-sensitive lookup of a verb by its name, as a property lookup
   * `config.methods[verb]` or `route.routes[verb]` is.
   */
  function Lookup(name: string): (r: Option<Verb>)
    ensures r.Some? ==> Name(r.value) == name
    ensures r.None? ==> forall v: Verb :: Name(v) != name
  {
    if name == "GET" then Some(GET)
    else if name == "HEAD" then Some(HEAD)
    else if name == "POST" then Some(POST)
    else if name == "PUT" then Some(PUT)
    else if name == "DELETE" then Some(DELETE)
    else if name == "TRACE" then Some(TRACE)
    else if name == "OPTIONS" then Some(OPTIONS)
    else if name == "CONNECT" then Some(CONNECT)
    else if name == "PATCH" then Some(PATCH)
    else None
  }

  function UpperChar(c: char): char
  {
    if 'a' <= c <= 'z' then (c as int - 'a' as int + 'A' as int) as char else c
  }

  function LowerChar(c: char): char
  {
    if 'A' <= c <= 'Z' then (c as int - 'A' as int + 'a' as int) as char else c
  }

  /** `String.prototype.toUpperCase`, on the ASCII letters. */
  function ToUpper(s: string): (r: string)
    ensures |r| == |s|
    ensures forall i :: 0 <= i < |s| ==> r[i] == UpperChar(s[i])
  {
    if s == [] then [] else [UpperChar(s[0])] + ToUpper(s[1..])
  }

  /** `String.prototype.toLowerCase`, on the ASCII letters. */
  function ToLower(s: string): (r: string)
    ensures |r| == |s|
    ensures forall i :: 0 <= i < |s| ==> r[i] == LowerChar(s[i])
  {
    if s == [] then [] else [LowerChar(s[0])] + ToLower(s[1..])
  }

  /** The verb a caller's spelling names: upper-cased, then looked up. */
  function Parse(verb: string): Option<Verb>
  {
    Lookup(ToUpper(verb))
  }

  /** Every verb is accepted in any ASCII letter case. */
  lemma ParseAnyCase(v: Verb)
    ensures Parse(Name(v)) == Some(v)
    ensures Parse(ToLower(Name(v))) == Some(v)
  {
    LookupName(v);
    var n := Name(v);
    UpperOfUpper(n);
    UpperOfLower(n);
  }

  /** Every verb is found under its own name. */
  lemma LookupName(v: Verb)
    ensures Lookup(Name(v)) == Some(v)
    ensures forall i :: 0 <= i < |Name(v)| ==> 'A' <= Name(v)[i] <= 'Z'
  {
    match v
    case GET =>
    case HEAD =>
    case POST =>
    case PUT =>
    case DELETE =>
    case TRACE =>
    case OPTIONS =>
    case CONNECT =>
    case PATCH =>
  }

  lemma {:induction false} UpperOfUpper(n: string)
    requires forall i :: 0 <= i < |n| ==> 'A' <= n[i] <= 'Z'
    ensures ToUpper(n) == n
  {
    if n != [] {
      UpperOfUpper(n[1..]);
      assert n == [n[0]] + n[1..];
    }
  }

  lemma {:induction false} UpperOfLower(n: string)
    requires forall i :: 0 <= i < |n| ==> 'A' <= n[i] <= 'Z'
    ensures ToUpper(ToLower(n)) == n
  {
    if n != [] {
      UpperOfLower(n[1..]);
      var l := ToLower(n);
      assert l == [LowerChar(n[0])] + ToLower(n[1..]);
      assert l[1..] == ToLower(n[1..]);
      assert UpperChar(LowerChar(n[0])) == n[0];
      assert n == [n[0]] + n[1..];
    }
  }
}
