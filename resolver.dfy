/**
 * The reverse resolver's URL builder: `flattenArguments` (index.js:171-184)
 * and the two branches of `interpolateUrl` (index.js:142-169), one for routes
 * given as a RegExp, one for routes given as a path string.
 */
module Resolver {
  import opened Wrappers
  import opened Patterns

  /**
   * One extra argument of `urlFor`: a plain object, an array, or a single value.
   * Values are strings; "" stands for every falsy value.
   */
  datatype Arg = Object(fields: map<string, string>) | List(items: seq<string>) | Scalar(value: string)

  /** What `flattenArguments` returns: an array of values that may carry named properties. */
  datatype Flat = Flat(named: map<string, string>, positional: seq<string>)

  // ---------------------------------------------------------------------------
  // flattenArguments

  /** The array part: every array argument spread, every other non-object argument appended. */
  function Positionals(args: seq<Arg>): seq<string>
  {
    if args == [] then [] else Positionals(args[..|args| - 1]) + Spread(args[|args| - 1])
  }

  /** What `sum.concat(value)` appends for one argument. */
  function Spread(a: Arg): seq<string>
  {
    match a
    case Object(_) => []
    case List(items) => items
    case Scalar(v) => [v]
  }

  /**
   * The named properties that survive: those of the objects after the last
   * non-object argument, a later object overwriting an earlier one. `concat`
   * builds a fresh array, so a non-object argument drops every name before it.
   */
  function NamedTail(args: seq<Arg>): map<string, string>
  {
    if args == [] then map[]
    else match args[|args| - 1]
      case Object(fields) => NamedTail(args[..|args| - 1]) + fields
      case _ => map[]
  }

  /** The reduce of index.js:173-182, step by step. */
  method FlattenArguments(args: seq<Arg>) returns (f: Flat)
    ensures f == Flat(NamedTail(args), Positionals(args))
  {
    f := Flat(map[], []);
    var i := 0;
    while i < |args|
      invariant 0 <= i <= |args|
      invariant f == Flat(NamedTail(args[..i]), Positionals(args[..i]))
    {
      assert args[..i + 1][..i] == args[..i];
      match args[i] {
        case Object(fields) =>
          f := f.(named := f.named + fields);
        case List(items) =>
          f := Flat(map[], f.positional + items);
        case Scalar(v) =>
          f := Flat(map[], f.positional + [v]);
      }
      i := i + 1;
    }
    assert args[..i] == args;
  }

  lemma {:induction false} PositionalsAppend(a: seq<Arg>, b: seq<Arg>)
    ensures Positionals(a + b) == Positionals(a) + Positionals(b)
    decreases |b|
  {
    if b == [] {
      assert a + b == a;
    } else {
      var n := |b| - 1;
      assert a + b == (a + b[..n]) + [b[n]];
      PositionalsSnoc(a + b[..n], b[n]);
      PositionalsAppend(a, b[..n]);
      assert b == b[..n] + [b[n]];
      PositionalsSnoc(b[..n], b[n]);
    }
  }

  lemma PositionalsSnoc(args: seq<Arg>, x: Arg)
    ensures Positionals(args + [x]) == Positionals(args) + Spread(x)
  {
    var xs := args + [x];
    assert xs[..|xs| - 1] == args;
  }

  /**
   * Every surviving name comes from an object argument after which only
   * objects follow; a later array or value drops the names merged before it.
   */
  lemma {:induction false} NamedTailOrigin(args: seq<Arg>, name: string)
    requires name in NamedTail(args)
    ensures exists i :: 0 <= i < |args| && args[i].Object? && name in args[i].fields &&
                        forall j :: i < j < |args| ==> args[j].Object?
  {
    var n := |args| - 1;
    var init := args[..n];
    assert args[n].Object?;
    if name in args[n].fields {
      assert 0 <= n < |args| && args[n].Object? && name in args[n].fields;
    } else {
      assert name in NamedTail(init);
      NamedTailOrigin(init, name);
      var i :| 0 <= i < |init| && init[i].Object? && name in init[i].fields &&
        forall j :: i < j < |init| ==> init[j].Object?;
      assert args[i] == init[i];
      assert forall j :: i < j < |args| ==> args[j].Object? by {
        forall j | i < j < |args| ensures args[j].Object? {
          if j < n {
            assert args[j] == init[j];
          }
        }
      }
    }
  }

  /** An object argument after which only objects follow keeps all its names, unless a later object renames them. */
  lemma {:induction false} NamedTailKeeps(args: seq<Arg>, i: nat, name: string)
    requires i < |args| && args[i].Object? && name in args[i].fields
    requires forall j :: i < j < |args| ==> args[j].Object? && name !in args[j].fields
    ensures name in NamedTail(args) && NamedTail(args)[name] == args[i].fields[name]
  {
    var n := |args| - 1;
    if i < n {
      var init := args[..n];
      assert init[i] == args[i];
      assert forall j :: i < j < |init| ==> init[j] == args[j];
      NamedTailKeeps(init, i, name);
    }
  }

  // ---------------------------------------------------------------------------
  // Truthiness of the flattened arguments

  /** `args[key]` for a name: a named property, or "" (undefined). */
  function NamedValue(f: Flat, key: string): string
  {
    if key in f.named then f.named[key] else ""
  }

  /** `args[i]` for an index: the i-th positional value, or "" (undefined). */
  function PositionalValue(f: Flat, i: nat): string
  {
    if i < |f.positional| then f.positional[i] else ""
  }

  /** Decimal digits of a natural number, as `':' + i` writes it. */
  function NatToString(n: nat): (s: string)
    ensures s != [] && forall k :: 0 <= k < |s| ==> '0' <= s[k] <= '9'
  {
    if n < 10 then [('0' as nat + n) as char] else NatToString(n / 10) + [('0' as nat + n % 10) as char]
  }

  function DigitsValue(s: string): nat
  {
    if s == [] then 0 else DigitsValue(s[..|s| - 1]) * 10 + (if '0' <= s[|s| - 1] <= '9' then s[|s| - 1] as nat - '0' as nat else 0)
  }

  /** The placeholder `:i` names the group it replaces: its digits read back as `i`. */
  lemma {:induction false} NatToStringValue(n: nat)
    ensures DigitsValue(NatToString(n)) == n
  {
    var s := NatToString(n);
    if n >= 10 {
      NatToStringValue(n / 10);
      assert s[..|s| - 1] == NatToString(n / 10);
    }
  }

  // ---------------------------------------------------------------------------
  // The RegExp branch: /^\^|\??\$$|(\\\/)|(\([^)]+\))/g

  /**
   * Length of a match of `\([^)]+\)` at the start of `t`: a `(`, at least one
   * character other than `)`, then the first `)`; 0 when there is none.
   */
  function GroupLen(t: string): (n: nat)
    ensures n == 0 || (3 <= n <= |t| && t[0] == '(' && t[n - 1] == ')' && forall k :: 0 < k < n - 1 ==> t[k] != ')')
  {
    if |t| >= 3 && t[0] == '(' && t[1] != ')' then GroupClose(t, 2) else 0
  }

  function GroupClose(t: string, k: nat): (n: nat)
    requires 2 <= k <= |t| && t[0] == '(' && forall j :: 0 < j < k ==> t[j] != ')'
    ensures n == 0 || (3 <= n <= |t| && t[n - 1] == ')' && forall j :: 0 < j < n - 1 ==> t[j] != ')')
    decreases |t| - k
  {
    if k == |t| then 0 else if t[k] == ')' then k + 1 else GroupClose(t, k + 1)
  }

  /** What the replacement callback returns for the i-th group (index.js:151). */
  function GroupText(f: Flat, i: nat): string
  {
    if PositionalValue(f, i) != "" then PositionalValue(f, i) else ":" + NatToString(i)
  }

  /**
   * The global replace over the rest `t` of the source, `i` groups having been
   * replaced before it. Alternatives are tried in order at every position: the
   * optional `?` and the `$` at the very end vanish, `\/` becomes `/`, a group
   * takes the next argument; any other character stays.
   */
  function Scan(t: string, i: nat, f: Flat): string
    decreases |t|
  {
    if t == [] then []
    else if IsEnd(t) then []
    else if |t| >= 2 && t[0] == '\\' && t[1] == '/' then "/" + Scan(t[2..], i, f)
    else if GroupLen(t) > 0 then GroupText(f, i) + Scan(t[GroupLen(t)..], i + 1, f)
    else [t[0]] + Scan(t[1..], i, f)
  }

  /** The rest of the source is the optional `?` and the `$` of the end anchor: `?$` or `$`. */
  predicate IsEnd(t: string)
  {
    (|t| == 2 && t[0] == '?' && t[1] == '$') || (|t| == 1 && t[0] == '$')
  }

  /** The RegExp branch of interpolateUrl: the leading `^` vanishes, the rest is scanned. */
  function InterpolateSource(source: string, f: Flat): string
  {
    if source != [] && source[0] == '^' then Scan(source[1..], 0, f) else Scan(source, 0, f)
  }

  /**
   * One match of the replace at the start of `t`, or the character it skips:
   * the text written, the characters consumed and the groups consumed.
   */
  function Step(t: string, i: nat, f: Flat): (r: (string, nat, nat))
    requires t != []
    ensures 0 < r.1 <= |t| && r.2 <= 1
  {
    if IsEnd(t) then ("", |t|, 0)
    else if |t| >= 2 && t[0] == '\\' && t[1] == '/' then ("/", 2, 0)
    else if GroupLen(t) > 0 then (GroupText(f, i), GroupLen(t), 1)
    else ([t[0]], 1, 0)
  }

  /** index.js:145-155: the replace with its counter `i` of groups seen so far. */
  method InterpolateRegex(source: string, f: Flat) returns (url: string)
    ensures url == InterpolateSource(source, f)
  {
    url := "";
    var rest := if source != [] && source[0] == '^' then source[1..] else source;
    var i := 0;
    while rest != []
      invariant url + Scan(rest, i, f) == InterpolateSource(source, f)
      decreases |rest|
    {
      StepScans(url, rest, i, f);
      var (text, used, groups) := Step(rest, i, f);
      url, rest, i := url + text, rest[used..], i + groups;
    }
  }

  /** One step of the replace writes its text and leaves the rest of the source to be scanned. */
  lemma StepScans(u: string, t: string, i: nat, f: Flat)
    requires t != []
    ensures var r := Step(t, i, f); u + Scan(t, i, f) == (u + r.0) + Scan(t[r.1..], i + r.2, f)
  {
    var r := Step(t, i, f);
    assert Scan(t, i, f) == r.0 + Scan(t[r.1..], i + r.2, f) by {
      if IsEnd(t) {
      } else if |t| >= 2 && t[0] == '\\' && t[1] == '/' {
        ScanSlashStep(t, i, f);
      } else if GroupLen(t) > 0 {
        ScanGroupStep(t, i, f);
      } else {
        assert Scan(t, i, f) == [t[0]] + Scan(t[1..], i, f);
      }
    }
  }

  /** The text of the path segments `\/(g)`, one group each. */
  function Segments(gs: seq<string>): string
  {
    if gs == [] then [] else "\\/(" + gs[0] + ")" + Segments(gs[1..])
  }

  /** What the segments become: `/` and the argument or placeholder for each group in turn. */
  function Filled(n: nat, i: nat, f: Flat): string
    decreases n
  {
    if n == 0 then [] else "/" + GroupText(f, i) + Filled(n - 1, i + 1, f)
  }

  predicate IsGroupBody(g: string)
  {
    g != [] && ')' !in g
  }

  lemma SegmentStep(g: string, rest: string, i: nat, f: Flat)
    requires IsGroupBody(g)
    ensures Scan("\\/(" + g + ")" + rest, i, f) == "/" + GroupText(f, i) + Scan(rest, i + 1, f)
  {
    var t := "\\/(" + g + ")" + rest;
    var u := "(" + g + ")" + rest;
    assert t[2..] == u;
    ScanSlashStep(t, i, f);
    GroupOf(g, rest);
    ScanGroupStep(u, i, f);
  }

  /** A group body in parentheses is one group of the replace. */
  lemma GroupOf(g: string, rest: string)
    requires IsGroupBody(g)
    ensures var u := "(" + g + ")" + rest; GroupLen(u) == |g| + 2 && u[|g| + 2..] == rest
  {
    var u := "(" + g + ")" + rest;
    assert u[1] == g[0];
    assert forall k :: 0 < k < |g| + 1 ==> u[k] == g[k - 1];
    assert u[|g| + 1] == ')';
    GroupCloseAt(u, |g| + 1);
    assert u[|g| + 2..] == rest;
  }

  lemma ScanSlashStep(t: string, i: nat, f: Flat)
    requires |t| >= 2 && t[0] == '\\' && t[1] == '/'
    ensures Scan(t, i, f) == "/" + Scan(t[2..], i, f)
  {
  }

  lemma ScanGroupStep(t: string, i: nat, f: Flat)
    requires GroupLen(t) > 0
    ensures Scan(t, i, f) == GroupText(f, i) + Scan(t[GroupLen(t)..], i + 1, f)
  {
  }

  lemma {:induction false} GroupCloseAt(t: string, c: nat)
    requires 2 <= c < |t| && t[0] == '(' && t[1] != ')' && t[c] == ')' && forall j :: 0 < j < c ==> t[j] != ')'
    ensures GroupLen(t) == c + 1
  {
    GroupCloseFrom(t, 2, c);
  }

  lemma {:induction false} GroupCloseFrom(t: string, k: nat, c: nat)
    requires 2 <= k <= c < |t| && t[0] == '(' && t[c] == ')' && forall j :: 0 < j < c ==> t[j] != ')'
    ensures GroupClose(t, k) == c + 1
    decreases c - k
  {
    if k < c {
      GroupCloseFrom(t, k + 1, c);
    }
  }

  /**
   * A RegExp route made of `\/(…)` segments and an optional trailing slash,
   * like `/^\/(\w)\/(\w)\/(\w)\/?$/`, resolves to `/`, then each group's
   * positional argument, or `:i` where it is missing, joined by `/`, then `/`.
   */
  lemma {:induction false} SegmentsResolve(gs: seq<string>, i: nat, f: Flat)
    requires forall k :: 0 <= k < |gs| ==> IsGroupBody(gs[k])
    ensures Scan(Segments(gs) + "\\/?$", i, f) == Filled(|gs|, i, f) + "/"
  {
    if gs == [] {
      assert Segments(gs) + "\\/?$" == "\\/?$";
      ScanTrailingSlash(i, f);
    } else {
      var rest := Segments(gs[1..]) + "\\/?$";
      var x := "/" + GroupText(f, i);
      SegmentsCons(gs);
      calc {
        Scan(Segments(gs) + "\\/?$", i, f);
        { SegmentStep(gs[0], rest, i, f); }
        x + Scan(rest, i + 1, f);
        { SegmentsResolve(gs[1..], i + 1, f); }
        x + (Filled(|gs| - 1, i + 1, f) + "/");
        (x + Filled(|gs| - 1, i + 1, f)) + "/";
        Filled(|gs|, i, f) + "/";
      }
    }
  }

  lemma SegmentsCons(gs: seq<string>)
    requires gs != []
    ensures Segments(gs) + "\\/?$" == "\\/(" + gs[0] + ")" + (Segments(gs[1..]) + "\\/?$")
  {
  }

  /** The optional trailing slash at the end of a RegExp route resolves to `/`. */
  lemma ScanTrailingSlash(i: nat, f: Flat)
    ensures Scan("\\/?$", i, f) == "/"
  {
    var t := "\\/?$";
    ScanSlashStep(t, i, f);
    assert t[2..] == "?$";
  }

  /**
   * Reading back a strict pattern compiled from a path with no token, dot,
   * group or special character gives the path again: `\/` turns back into `/`
   * and the anchors vanish.
   */
  lemma {:induction false} PlainSourceResolves(text: string, i: nat, f: Flat)
    requires forall k :: 0 <= k < |text| ==> text[k] !in "\\.()?$"
    ensures Scan(EscapeSlashDot(text) + "$", i, f) == text
  {
    if text != [] {
      PlainSourceResolves(text[1..], i, f);
      var rest := EscapeSlashDot(text[1..]) + "$";
      var t := EscapeSlashDot(text) + "$";
      if text[0] == '/' {
        assert t == "\\/" + rest;
        assert t[2..] == rest;
      } else {
        assert t == [text[0]] + rest;
        assert t[1..] == rest;
        assert GroupLen(t) == 0;
      }
    } else {
      assert EscapeSlashDot(text) + "$" == "$";
    }
  }

  // ---------------------------------------------------------------------------
  // The path-string branch

  /** What the replacement callback of index.js:157-164 returns for one token. */
  function TokenUrl(t: Token, f: Flat): string
  {
    if NamedValue(f, t.name) != "" then "/" + NamedValue(f, t.name)
    else if t.optional then "/"
    else TokenText(t)
  }

  function PieceUrl(p: Piece, f: Flat): string
  {
    match p
    case Char(c) => [c]
    case Named(t) => TokenUrl(t, f)
  }

  /** The replace of index.js:157: every token of the path by its value. */
  function InterpolateTokens(ps: seq<Piece>, f: Flat): string
  {
    if ps == [] then [] else PieceUrl(ps[0], f) + InterpolateTokens(ps[1..], f)
  }

  /** The replacement of every wildcard slash-star: `args["*"]`, else the positional values joined by `/`, else `*`. */
  function WildcardValue(f: Flat): string
  {
    if NamedValue(f, "*") != "" then NamedValue(f, "*")
    else if JoinSlash(f.positional) != "" then JoinSlash(f.positional)
    else "*"
  }

  /** `Array.prototype.join('/')`. */
  function JoinSlash(xs: seq<string>): string
  {
    if xs == [] then "" else if |xs| == 1 then xs[0] else xs[0] + "/" + JoinSlash(xs[1..])
  }

  /** The replace of index.js:165: every slash followed by a star, left to right, by `/` and `w`. */
  function ExpandWildcards(s: string, w: string): string
  {
    if |s| >= 2 && s[0] == '/' && s[1] == '*' then "/" + w + ExpandWildcards(s[2..], w)
    else if s == [] then []
    else [s[0]] + ExpandWildcards(s[1..], w)
  }

  /**
   * The string branch of interpolateUrl. Arguments that give no token of the
   * path a value and leave the wildcards as `*` give the path back as it was.
   */
  function InterpolatePath(text: string, f: Flat): (r: string)
    ensures Unsupplied(text, f) && WildcardValue(f) == "*" ==> r == text
  {
    UnsuppliedKeepPath(text, f);
    ExpandWildcards(InterpolateTokens(Tokenize(text), f), WildcardValue(f))
  }

  /** Every token of the path gets no value and none is optional. */
  predicate Unsupplied(text: string, f: Flat)
  {
    forall k :: 0 <= k < |Tokenize(text)| && Tokenize(text)[k].Named? ==>
      NamedValue(f, Tokenize(text)[k].token.name) == "" && !Tokenize(text)[k].token.optional
  }

  lemma UnsuppliedKeepPath(text: string, f: Flat)
    ensures Unsupplied(text, f) && WildcardValue(f) == "*" ==>
      ExpandWildcards(InterpolateTokens(Tokenize(text), f), WildcardValue(f)) == text
  {
    if Unsupplied(text, f) {
      UnsuppliedTokensVerbatim(Tokenize(text), f);
      TokenizeLossless(text);
      WildcardsByStar(text);
    }
  }

  /** A wildcard replaced by `*` itself leaves the text as it was. */
  lemma {:induction false} WildcardsByStar(s: string)
    ensures ExpandWildcards(s, "*") == s
  {
    if |s| >= 2 && s[0] == '/' && s[1] == '*' {
      WildcardsByStar(s[2..]);
      assert s == "/*" + s[2..];
    } else if s != [] {
      WildcardsByStar(s[1..]);
      assert s == [s[0]] + s[1..];
    }
  }

  /** Tokens that get no value and are not optional are written back verbatim. */
  lemma {:induction false} UnsuppliedTokensVerbatim(ps: seq<Piece>, f: Flat)
    requires forall k :: 0 <= k < |ps| && ps[k].Named? ==> NamedValue(f, ps[k].token.name) == "" && !ps[k].token.optional
    ensures InterpolateTokens(ps, f) == Render(ps)
  {
    if ps != [] {
      UnsuppliedTokensVerbatim(ps[1..], f);
    }
  }

  /** No parameter of the path is marked optional with `?`. */
  predicate NoOptionalToken(text: string)
  {
    forall k :: 0 <= k < |Tokenize(text)| && Tokenize(text)[k].Named? ==> !Tokenize(text)[k].token.optional
  }

  /**
   * Without arguments a path without optional parameters resolves to itself:
   * every parameter stays `:name` and every wildcard stays `*`.
   */
  lemma NoArgumentsKeepPath(text: string)
    requires NoOptionalToken(text)
    ensures InterpolatePath(text, Flat(map[], [])) == text
  {
    assert Unsupplied(text, Flat(map[], []));
  }

  /** Each piece resolves on its own: the tokens of a path are replaced one by one. */
  lemma {:induction false} InterpolateTokensAppend(a: seq<Piece>, b: seq<Piece>, f: Flat)
    ensures InterpolateTokens(a + b, f) == InterpolateTokens(a, f) + InterpolateTokens(b, f)
  {
    if a == [] {
      assert a + b == b;
    } else {
      InterpolateTokensAppend(a[1..], b, f);
      InterpolateTokensHead(a, b, f);
    }
  }

  /** The first piece of `a + b` is that of `a`, and the rest is `a[1..] + b`. */
  lemma InterpolateTokensHead(a: seq<Piece>, b: seq<Piece>, f: Flat)
    requires a != []
    ensures InterpolateTokens(a + b, f) == PieceUrl(a[0], f) + InterpolateTokens(a[1..] + b, f)
  {
    assert (a + b)[0] == a[0] && (a + b)[1..] == a[1..] + b;
  }

  /**
   * A supplied parameter becomes `/` and its value whatever its own text was,
   * slash, format dot, inline group, `?` and `*` included; an unsupplied
   * optional one becomes `/`.
   */
  lemma TokenResolves(t: Token, f: Flat)
    ensures NamedValue(f, t.name) != "" ==> InterpolateTokens([Named(t)], f) == "/" + f.named[t.name]
    ensures NamedValue(f, t.name) == "" && t.optional ==> InterpolateTokens([Named(t)], f) == "/"
    ensures NamedValue(f, t.name) == "" && !t.optional ==> InterpolateTokens([Named(t)], f) == TokenText(t)
  {
    assert [Named(t)][1..] == [];
  }
}
