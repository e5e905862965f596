/**
 * The pattern compiler `pathRegExp` (index.js:72-101) and the token grammar it
 * shares with the reverse resolver (`namedArgRegExp`, index.js:34).
 *
 * A path is rewritten into regular-expression source text by a fixed chain of
 * string passes; the regular expression itself is never executed here.
 */
module Patterns {
  import opened Wrappers
  import opened Sequences

  /** A compiled regular expression: its source text and whether it ignores case. */
  datatype Regex = Regex(source: string, ignoreCase: bool)

  /** The first argument of `route`: a string, an array of strings, or a RegExp. */
  datatype PathSpec = Literal(text: string) | Alternatives(options: seq<string>) | Pattern(regex: Regex)

  /** One entry of the `keys` array: a named parameter and whether it carried `?`. */
  datatype Key = Key(name: string, optional: bool)

  datatype Compiled = Compiled(regex: Regex, keys: seq<Key>)

  // ---------------------------------------------------------------------------
  // The token grammar  (\/)?(\.)?:(\w+)(?:(\(.*?\)))?(\?)?(\*)?

  predicate IsWordChar(c: char)
  {
    'a' <= c <= 'z' || 'A' <= c <= 'Z' || '0' <= c <= '9' || c == '_'
  }

  /** The characters `.` refuses to match in a JavaScript regular expression. */
  predicate IsLineTerminator(c: char)
  {
    c == '\n' || c == '\r' || c == '\U{2028}' || c == '\U{2029}'
  }

  /** Length of the greedy run `\w+` at the start of `s` (0 when there is none). */
  function WordLen(s: string): (n: nat)
    ensures n <= |s|
  {
    if s != [] && IsWordChar(s[0]) then 1 + WordLen(s[1..]) else 0
  }

  /** The run `WordLen(s)` is made of word characters and cannot be extended. */
  lemma {:induction false} WordLenMeaning(s: string)
    ensures forall i :: 0 <= i < WordLen(s) ==> IsWordChar(s[i])
    ensures WordLen(s) < |s| ==> !IsWordChar(s[WordLen(s)])
  {
    if s != [] && IsWordChar(s[0]) {
      WordLenMeaning(s[1..]);
    }
  }

  /** `s[i]` closes an inline group opened at `s[0]`: nothing before it stops `.*?`. */
  predicate ClosesAt(s: string, r: nat)
  {
    0 < r < |s| && s[r] == ')' &&
    forall i :: 0 < i < r ==> s[i] != ')' && !IsLineTerminator(s[i])
  }

  function CloseFrom(s: string, i: nat): (n: nat)
    requires 0 < i <= |s|
    ensures n == 0 || i < n <= |s|
    decreases |s| - i
  {
    if i == |s| then 0
    else if s[i] == ')' then i + 1
    else if IsLineTerminator(s[i]) then 0
    else CloseFrom(s, i + 1)
  }

  /**
   * Length of the lazy inline group `\(.*?\)` at the start of `s`, 0 when the
   * group does not match there.
   */
  function CaptureLen(s: string): (n: nat)
    ensures n <= |s|
  {
    if s != [] && s[0] == '(' then CloseFrom(s, 1) else 0
  }

  lemma {:induction false} CloseFromMeaning(s: string, i: nat)
    requires 0 < i <= |s|
    requires forall j :: 0 < j < i ==> s[j] != ')' && !IsLineTerminator(s[j])
    ensures CloseFrom(s, i) > 0 ==> ClosesAt(s, CloseFrom(s, i) - 1)
    ensures CloseFrom(s, i) == 0 ==> forall r :: i <= r < |s| ==> !ClosesAt(s, r)
    decreases |s| - i
  {
    if i < |s| && s[i] != ')' && !IsLineTerminator(s[i]) {
      CloseFromMeaning(s, i + 1);
    }
  }

  /**
   * The inline group `\(.*?\)` matches exactly when a `)` follows the `(` with no
   * line terminator before it, and then it ends at the first such `)`.
   */
  lemma CaptureLenMeaning(s: string)
    ensures CaptureLen(s) > 0 <==> s != [] && s[0] == '(' && exists r :: ClosesAt(s, r)
    ensures CaptureLen(s) > 0 ==> CaptureLen(s) >= 2 && ClosesAt(s, CaptureLen(s) - 1)
  {
    if s != [] && s[0] == '(' {
      CloseFromMeaning(s, 1);
    }
  }

  /** One match of the token grammar; `capture` is "" when the inline group is absent. */
  datatype Token = Token(slash: bool, format: bool, name: string, capture: string, optional: bool, star: bool)

  /** The text a token was matched from. */
  function TokenText(t: Token): string
  {
    Lead(t) + ":" + t.name + t.capture + Trail(t)
  }

  /** The optional `/` and `.` in front of the `:`. */
  function Lead(t: Token): string
  {
    (if t.slash then "/" else "") + (if t.format then "." else "")
  }

  /** The optional `?` and `*` after the name and inline group. */
  function Trail(t: Token): string
  {
    (if t.optional then "?" else "") + (if t.star then "*" else "")
  }

  /**
   * Where the `:` of a token starting at `s[0]` has to be: after an optional `/`
   * and an optional `.`. These two optional parts are decided by the next
   * character alone, so the regular expression never has a second choice to make.
   */
  function ColonAt(s: string): (j: nat)
    ensures j <= 2
  {
    var i := if s != [] && s[0] == '/' then 1 else 0;
    if i < |s| && s[i] == '.' then i + 1 else i
  }

  /** A token whose `:` is at `s[j]`: greedy name, lazy inline group, then `?` and `*`. */
  function TokenFrom(s: string, j: nat): (t: Token)
    requires j < |s|
  {
    var k := j + 1 + WordLen(s[j + 1..]);
    TokenBetween(s, j, k, k + CaptureLen(s[k..]))
  }

  /** The token whose name is `s[j + 1..k]` and whose inline group is `s[k..k2]`. */
  function TokenBetween(s: string, j: nat, k: nat, k2: nat): Token
    requires 0 < j + 1 <= k <= k2 <= |s|
  {
    var optional := k2 < |s| && s[k2] == '?';
    var k3 := if optional then k2 + 1 else k2;
    Token(j > 0 && s[0] == '/', j > 0 && s[j - 1] == '.', s[j + 1..k], s[k..k2], optional, k3 < |s| && s[k3] == '*')
  }

  /** The token read at `s[j]` is spelled by a prefix of `s`, of at least two characters. */
  lemma TokenFromText(s: string, j: nat)
    requires j == ColonAt(s) && j < |s| && s[j] == ':' && WordLen(s[j + 1..]) > 0
    ensures var t := TokenFrom(s, j); 2 <= |TokenText(t)| <= |s| && s[..|TokenText(t)|] == TokenText(t)
  {
    var t := TokenFrom(s, j);
    var k := j + 1 + WordLen(s[j + 1..]);
    var k2 := k + CaptureLen(s[k..]);
    TokenFromAt(s, j, k, k2);
    TrailText(s, k2, t);
    LeadText(s, j, t);
    Assemble(s, t, j, k, k2, k2 + |Trail(t)|);
  }

  /** The name of the token read at `s[j]` is the run of word characters after the `:`. */
  lemma TokenFromName(s: string, j: nat)
    requires j == ColonAt(s) && j < |s| && s[j] == ':' && WordLen(s[j + 1..]) > 0
    ensures var name := TokenFrom(s, j).name; name != [] && forall i :: 0 <= i < |name| ==> IsWordChar(name[i])
  {
    var w := s[j + 1..];
    WordLenMeaning(w);
    assert TokenFrom(s, j).name == w[..WordLen(w)];
  }

  /** The match of the token grammar at the start of `s`, if any. */
  function TokenAt(s: string): (r: Option<Token>)
    ensures r.Some? ==> 2 <= |TokenText(r.value)| <= |s| && s[..|TokenText(r.value)|] == TokenText(r.value)
    ensures r.Some? ==> r.value.name != [] && forall i :: 0 <= i < |r.value.name| ==> IsWordChar(r.value.name[i])
  {
    var j := ColonAt(s);
    if j < |s| && s[j] == ':' && WordLen(s[j + 1..]) > 0 then
      TokenFromText(s, j);
      TokenFromName(s, j);
      Some(TokenFrom(s, j))
    else None
  }

  /**
   * The match is found whenever one is there: a string that starts with the
   * text of a token whose name is a non-empty run of word characters has a
   * token at its start.
   */
  lemma TokenAtComplete(s: string, t: Token)
    requires t.name != [] && forall i :: 0 <= i < |t.name| ==> IsWordChar(t.name[i])
    requires |TokenText(t)| <= |s| && s[..|TokenText(t)|] == TokenText(t)
    ensures TokenAt(s).Some?
  {
    var n := |Lead(t)|;
    LeadSpelled(s, t);
    var w := s[n + 1..];
    WordLenMeaning(w);
    assert w[0] == t.name[0];
  }

  /** A text spelling a token has its `:` where `ColonAt` looks, and the name right after it. */
  lemma LeadSpelled(s: string, t: Token)
    requires t.name != []
    requires |TokenText(t)| <= |s| && s[..|TokenText(t)|] == TokenText(t)
    ensures var n := |Lead(t)|; ColonAt(s) == n && n + 1 < |s| && s[n] == ':' && s[n + 1] == t.name[0]
  {
    var x := TokenText(t);
    var n := |Lead(t)|;
    assert x == Lead(t) + (":" + t.name + t.capture + Trail(t));
    assert s[n] == x[n];
    assert s[n + 1] == x[n + 1];
    if t.slash {
      assert s[0] == x[0];
    }
    if t.format {
      assert s[n - 1] == x[n - 1];
    }
  }

  lemma Assemble(s: string, t: Token, j: nat, k: nat, k2: nat, e: nat)
    requires j < k <= k2 <= e <= |s| && s[j] == ':'
    requires s[..j] == Lead(t) && s[j + 1..k] == t.name && s[k..k2] == t.capture && s[k2..e] == Trail(t)
    ensures TokenText(t) == s[..e]
  {
    assert s[..j + 1] == s[..j] + [':'];
    assert s[..k] == s[..j + 1] + s[j + 1..k];
    assert s[..k2] == s[..k] + s[k..k2];
    assert s[..e] == s[..k2] + s[k2..e];
  }

  lemma LeadText(s: string, j: nat, t: Token)
    requires j == ColonAt(s) && j < |s| && t.slash == (j > 0 && s[0] == '/') && t.format == (j > 0 && s[j - 1] == '.')
    ensures s[..j] == Lead(t)
  {
    if j == 2 {
      assert s[..2] == ['/', '.'];
    } else if j == 1 {
      assert s[..1] == [s[0]];
    }
  }

  lemma TrailText(s: string, k2: nat, t: Token)
    requires k2 <= |s|
    requires t.optional == (k2 < |s| && s[k2] == '?')
    requires t.star == (var k3 := if t.optional then k2 + 1 else k2; k3 < |s| && s[k3] == '*')
    ensures k2 + |Trail(t)| <= |s| && s[k2..k2 + |Trail(t)|] == Trail(t)
  {
    if t.optional && t.star {
      assert s[k2..k2 + 2] == ['?', '*'];
    }
  }

  /** A string cut into the matches of the token grammar and the characters between them. */
  datatype Piece = Char(c: char) | Named(token: Token)

  /**
   * The left-to-right, non-overlapping matches of the token grammar, as a global
   * `String.prototype.replace` finds them.
   */
  function Tokenize(s: string): seq<Piece>
    decreases |s|
  {
    if s == [] then []
    else match TokenAt(s)
      case Some(t) => [Named(t)] + Tokenize(s[|TokenText(t)|..])
      case None => [Char(s[0])] + Tokenize(s[1..])
  }

  /** The text the pieces were cut from. */
  function Render(ps: seq<Piece>): string
  {
    if ps == [] then [] else PieceText(ps[0]) + Render(ps[1..])
  }

  function PieceText(p: Piece): string
  {
    match p
    case Char(c) => [c]
    case Named(t) => TokenText(t)
  }

  /** Cutting a string into tokens loses nothing: the pieces spell the string again. */
  lemma {:induction false} TokenizeLossless(s: string)
    ensures Render(Tokenize(s)) == s
    decreases |s|
  {
    if s != [] {
      var n, p := TokenizeStep(s);
      TokenizeLossless(s[n..]);
      RenderCons(p, Tokenize(s[n..]));
      FirstPieceText(s);
      TakeDrop(s, n);
    }
  }

  lemma RenderCons(p: Piece, ps: seq<Piece>)
    ensures Render([p] + ps) == PieceText(p) + Render(ps)
  {
    assert ([p] + ps)[0] == p && ([p] + ps)[1..] == ps;
  }

  /** The first piece of a string spells the part of the string it covers. */
  lemma FirstPieceText(s: string)
    requires s != []
    ensures var (p, n) := FirstPiece(TokenAt(s), s[0]); n <= |s| && PieceText(p) == s[..n]
  {
    if TokenAt(s).None? {
      assert s[..1] == [s[0]];
    }
  }

  /** The `keys` pushed while the pieces are replaced, left to right. */
  function KeysOf(ps: seq<Piece>): (keys: seq<Key>)
    ensures |keys| <= |ps|
  {
    if ps == [] then [] else PieceKeys(ps[0]) + KeysOf(ps[1..])
  }

  function PieceKeys(p: Piece): seq<Key>
  {
    match p
    case Char(_) => []
    case Named(t) => [Key(t.name, t.optional)]
  }

  // ---------------------------------------------------------------------------
  // The passes of pathRegExp, in the order index.js applies them.

  /** `'(' + path.join('|') + ')'` (index.js:75). */
  function JoinAlternatives(options: seq<string>): string
  {
    "(" + Join(options) + ")"
  }

  function Join(options: seq<string>): string
  {
    if options == [] then ""
    else if |options| == 1 then options[0]
    else options[0] + "|" + Join(options[1..])
  }

  /** `.concat(config.strict ? '' : '/?')` (index.js:78). */
  function OptionalTrailingSlash(s: string, strict: bool): string
  {
    if strict then s else s + "/?"
  }

  /** `.replace(/\/\(/g, '(?:/')` (index.js:80). */
  function GroupSlashes(s: string): string
  {
    if |s| >= 2 && s[0] == '/' && s[1] == '(' then "(?:/" + GroupSlashes(s[2..])
    else if s == [] then []
    else [s[0]] + GroupSlashes(s[1..])
  }

  /** The replacement the callback at index.js:84-94 returns for one token. */
  function TokenRegexText(t: Token): string
  {
    Opening(t) + GroupText(t) + Closing(t)
  }

  /** An optional token puts its slash inside the non-capturing group, a required one in front of it. */
  function Opening(t: Token): string
  {
    var slash := if t.slash then "/" else "";
    (if t.optional then "" else slash) + "(?:" + (if t.optional then slash else "")
  }

  /** The format dot and the capture: the inline group, or the default segment group. */
  function GroupText(t: Token): string
  {
    (if t.format then "." else "")
    + (if t.capture != "" then t.capture else if t.format then "([^/.]+?)" else "([^/]+?)") + ")"
  }

  function Closing(t: Token): string
  {
    (if t.optional then "?" else "") + (if t.star then "(/*)?" else "")
  }

  /**
   * The shape of a token's regular expression: an optional token opens the
   * group with its slash inside it and ends in `?`, a required one keeps the
   * slash in front of the group and ends with the group; a star adds the
   * optional run of slashes.
   */
  lemma TokenRegexShape(t: Token)
    ensures var r := TokenRegexText(t);
      (t.optional ==> r[..3] == "(?:" && (t.slash ==> r[3] == '/')) &&
      (!t.optional && t.slash ==> r[..4] == "/(?:") &&
      (!t.optional && !t.slash ==> r[..3] == "(?:") &&
      (t.star ==> |r| >= 5 && r[|r| - 5..] == "(/*)?") &&
      (t.optional && !t.star ==> r[|r| - 1] == '?') &&
      (!t.optional && !t.star ==> r[|r| - 1] == ')')
  {
    var o, g, c := Opening(t), GroupText(t), Closing(t);
    var r := TokenRegexText(t);
    assert r == o + g + c;
    assert r[..|o|] == o;
    assert r[|o| + |g|..] == c;
    if t.optional && t.slash {
      assert o == "(?:/";
    } else if !t.optional && t.slash {
      assert o == "/(?:";
    } else {
      assert o == "(?:";
    }
    if t.star {
      assert r[|r| - 5..] == c[|c| - 5..];
    }
    if !t.optional && !t.star {
      assert c == [] && g[|g| - 1] == ')';
    }
  }

  /** The global replace of index.js:84: every token by its regular-expression text. */
  function ExpandTokens(ps: seq<Piece>): string
  {
    if ps == [] then [] else PieceRegexText(ps[0]) + ExpandTokens(ps[1..])
  }

  function PieceRegexText(p: Piece): string
  {
    match p
    case Char(c) => [c]
    case Named(t) => TokenRegexText(t)
  }

  /** `.replace(/([\/.])/g, '\\$1')` (index.js:96). */
  function EscapeSlashDot(s: string): string
  {
    if s == [] then [] else EscapeChar(s[0]) + EscapeSlashDot(s[1..])
  }

  function EscapeChar(c: char): string
  {
    if c == '/' || c == '.' then ['\\', c] else [c]
  }

  /** The pass of index.js:98: every `*` becomes the wildcard group `(.*)`. */
  function ExpandStars(s: string): string
  {
    if s == [] then [] else StarChar(s[0]) + ExpandStars(s[1..])
  }

  function StarChar(c: char): string
  {
    if c == '*' then "(.*)" else [c]
  }

  /** The string pathRegExp starts from: the path, or the alternation of an array. */
  function PatternText(spec: PathSpec): string
    requires !spec.Pattern?
  {
    match spec
    case Literal(text) => text
    case Alternatives(options) => JoinAlternatives(options)
  }

  /** The text the token grammar is run over: after the passes of lines 78 and 80. */
  function Prepared(text: string, strict: bool): string
  {
    GroupSlashes(OptionalTrailingSlash(text, strict))
  }

  /** The passes of index.js:84-98 applied to the prepared text. */
  function Body(text: string, strict: bool): string
  {
    ExpandStars(EscapeSlashDot(ExpandTokens(Tokenize(Prepared(text, strict)))))
  }

  /** The source text handed to `new RegExp` (index.js:100). */
  function SourceOf(text: string, strict: bool): string
  {
    "^" + Body(text, strict) + "$"
  }

  /**
   * pathRegExp: a RegExp is returned as it is and pushes no key; a string or an
   * array becomes an anchored source, case-insensitive unless `sensitive`, with
   * one key per token.
   */
  function PathRegExp(spec: PathSpec, strict: bool, sensitive: bool): (c: Compiled)
    ensures spec.Pattern? ==> c == Compiled(spec.regex, [])
    ensures !spec.Pattern? ==> c.regex.ignoreCase == !sensitive
    ensures !spec.Pattern? ==> |c.regex.source| >= 2 && c.regex.source[0] == '^' && c.regex.source[|c.regex.source| - 1] == '$'
  {
    match spec
    case Pattern(regex) => Compiled(regex, [])
    case _ => Compile(PatternText(spec), strict, sensitive)
  }

  /** The string case of pathRegExp: the source text and the keys pushed on the way. */
  function Compile(text: string, strict: bool, sensitive: bool): Compiled
  {
    Compiled(Regex(SourceOf(text, strict), !sensitive), KeysOf(Tokenize(Prepared(text, strict))))
  }

  // ---------------------------------------------------------------------------
  // Properties of the passes

  /** Pieces that are all plain characters. */
  function Chars(s: string): (ps: seq<Piece>)
    ensures |ps| == |s| && forall i :: 0 <= i < |s| ==> ps[i] == Char(s[i])
  {
    if s == [] then [] else [Char(s[0])] + Chars(s[1..])
  }

  /** No `/` is directly followed by `(`: the pass of index.js:80 has nothing to rewrite. */
  predicate NoGroupedSlash(s: string)
  {
    |s| < 2 || (!(s[0] == '/' && s[1] == '(') && NoGroupedSlash(s[1..]))
  }

  lemma {:induction false} GroupSlashesIdentity(s: string)
    requires NoGroupedSlash(s)
    ensures GroupSlashes(s) == s
    decreases |s|
  {
    if s != [] {
      GroupSlashesIdentity(s[1..]);
      assert s == [s[0]] + s[1..];
    }
  }

  lemma {:induction false} ExpandTokensAppend(a: seq<Piece>, b: seq<Piece>)
    ensures ExpandTokens(a + b) == ExpandTokens(a) + ExpandTokens(b)
    ensures KeysOf(a + b) == KeysOf(a) + KeysOf(b)
    decreases |a|
  {
    if a != [] {
      ExpandTokensCons(a, b);
      ExpandTokensAppend(a[1..], b);
      ConcatAssoc(PieceRegexText(a[0]), ExpandTokens(a[1..]), ExpandTokens(b));
      ConcatAssoc(PieceKeys(a[0]), KeysOf(a[1..]), KeysOf(b));
    } else {
      assert a + b == b;
    }
  }

  lemma ExpandTokensCons(a: seq<Piece>, b: seq<Piece>)
    requires a != []
    ensures ExpandTokens(a + b) == PieceRegexText(a[0]) + ExpandTokens(a[1..] + b)
    ensures KeysOf(a + b) == PieceKeys(a[0]) + KeysOf(a[1..] + b)
  {
    assert (a + b)[0] == a[0] && (a + b)[1..] == a[1..] + b;
  }

  lemma {:induction false} ExpandTokensChars(s: string)
    ensures ExpandTokens(Chars(s)) == s && KeysOf(Chars(s)) == []
  {
    if s != [] {
      ExpandTokensChars(s[1..]);
      assert Chars(s)[1..] == Chars(s[1..]);
    }
  }

  lemma {:induction false} EscapeAppend(a: string, b: string)
    ensures EscapeSlashDot(a + b) == EscapeSlashDot(a) + EscapeSlashDot(b)
  {
    if a != [] {
      EscapeAppend(a[1..], b);
      assert (a + b)[0] == a[0] && (a + b)[1..] == a[1..] + b;
    } else {
      assert a + b == b;
    }
  }

  lemma {:induction false} StarsAppend(a: string, b: string)
    ensures ExpandStars(a + b) == ExpandStars(a) + ExpandStars(b)
  {
    if a != [] {
      StarsAppend(a[1..], b);
      assert (a + b)[0] == a[0] && (a + b)[1..] == a[1..] + b;
    } else {
      assert a + b == b;
    }
  }

  lemma {:induction false} StarsIdentity(s: string)
    requires '*' !in s
    ensures ExpandStars(s) == s
  {
    if s != [] {
      StarsIdentity(s[1..]);
      assert s == [s[0]] + s[1..];
    }
  }

  lemma {:induction false} EscapeKeepsStarsOut(s: string)
    requires '*' !in s
    ensures '*' !in EscapeSlashDot(s)
  {
    if s != [] {
      EscapeKeepsStarsOut(s[1..]);
    }
  }

  /** Text without `:` holds no token. */
  lemma {:induction false} TokenizeNoColon(s: string)
    requires ':' !in s
    ensures Tokenize(s) == Chars(s)
    decreases |s|
  {
    if s != [] {
      assert TokenAt(s).None?;
      TokenizeNoColon(s[1..]);
    }
  }

  lemma {:induction false} WordLenSlashSuffix(w: string)
    ensures WordLen(w + "/?") == WordLen(w)
  {
    if w != [] {
      assert (w + "/?")[1..] == w[1..] + "/?";
      WordLenSlashSuffix(w[1..]);
    }
  }

  lemma {:induction false} CloseFromSlashSuffix(w: string, i: nat)
    requires 0 < i <= |w|
    requires forall j :: 0 < j < i ==> w[j] != ')' && !IsLineTerminator(w[j])
    ensures CloseFrom(w + "/?", i) == CloseFrom(w, i)
    decreases |w| - i
  {
    var x := w + "/?";
    if i == |w| {
      assert x[i] == '/' && x[i + 1] == '?';
      assert CloseFrom(x, i + 2) == 0;
    } else if w[i] != ')' && !IsLineTerminator(w[i]) {
      CloseFromSlashSuffix(w, i + 1);
    }
  }

  lemma CaptureLenSlashSuffix(w: string)
    ensures CaptureLen(w + "/?") == CaptureLen(w)
  {
    if w != [] && w[0] == '(' {
      CloseFromSlashSuffix(w, 1);
    }
  }

  lemma ColonAtSlashSuffix(v: string)
    requires v != []
    ensures ColonAt(v + "/?") == ColonAt(v)
    ensures ColonAt(v) >= |v| ==> (v + "/?")[ColonAt(v)] != ':'
  {
  }

  lemma TokenFromSlashSuffix(v: string, j: nat)
    requires j == ColonAt(v) && j < |v| && v[j] == ':' && WordLen(v[j + 1..]) > 0
    ensures j == ColonAt(v + "/?") && WordLen((v + "/?")[j + 1..]) > 0
    ensures TokenFrom(v + "/?", j) == TokenFrom(v, j)
  {
    ColonAtSlashSuffix(v);
    var k, k2 := ScanSlashSuffix(v, j);
    TokenFromAt(v, j, k, k2);
    TokenFromAt(v + "/?", j, k, k2);
    BetweenSlashSuffix(v, j, k, k2);
  }

  lemma TokenFromAt(s: string, j: nat, k: nat, k2: nat)
    requires j < |s|
    requires k == j + 1 + WordLen(s[j + 1..]) && k <= |s| && k2 == k + CaptureLen(s[k..]) && k2 <= |s|
    ensures TokenFrom(s, j) == TokenBetween(s, j, k, k2)
  {
  }

  lemma BetweenSlashSuffix(v: string, j: nat, k: nat, k2: nat)
    requires 0 < j + 1 <= k <= k2 <= |v|
    requires (v + "/?")[j + 1..k] == v[j + 1..k] && (v + "/?")[k..k2] == v[k..k2]
    ensures TokenBetween(v + "/?", j, k, k2) == TokenBetween(v, j, k, k2)
  {
    TrailSlashSuffix(v, k2);
  }

  /** The name and inline group of a token end at the same places with or without `/?` appended. */
  lemma ScanSlashSuffix(v: string, j: nat) returns (k: nat, k2: nat)
    requires j < |v|
    ensures k == j + 1 + WordLen(v[j + 1..]) == j + 1 + WordLen((v + "/?")[j + 1..]) && k <= |v|
    ensures k2 == k + CaptureLen(v[k..]) == k + CaptureLen((v + "/?")[k..]) && k2 <= |v|
    ensures (v + "/?")[j + 1..k] == v[j + 1..k] && (v + "/?")[k..k2] == v[k..k2]
  {
    var x := v + "/?";
    assert x[j + 1..] == v[j + 1..] + "/?";
    WordLenSlashSuffix(v[j + 1..]);
    k := j + 1 + WordLen(v[j + 1..]);
    assert x[k..] == v[k..] + "/?";
    CaptureLenSlashSuffix(v[k..]);
    k2 := k + CaptureLen(v[k..]);
  }

  /** The optional `?` and `*` read at `k2` are the same with or without `/?` appended. */
  lemma TrailSlashSuffix(v: string, k2: nat)
    requires k2 <= |v|
    ensures var x := v + "/?";
      (k2 < |x| && x[k2] == '?') == (k2 < |v| && v[k2] == '?')
    ensures var x := v + "/?";
      var k3 := if k2 < |v| && v[k2] == '?' then k2 + 1 else k2;
      (k3 < |x| && x[k3] == '*') == (k3 < |v| && v[k3] == '*')
  {
  }

  /** Appending the optional trailing slash never extends or creates a token. */
  lemma TokenAtSlashSuffix(v: string)
    requires v != []
    ensures TokenAt(v + "/?") == TokenAt(v)
  {
    ColonAtSlashSuffix(v);
    var j := ColonAt(v);
    if j < |v| && v[j] == ':' && WordLen(v[j + 1..]) > 0 {
      TokenFromSlashSuffix(v, j);
    } else if j < |v| && v[j] == ':' {
      TokenFromSlashSuffixWord(v, j);
    }
  }

  lemma TokenFromSlashSuffixWord(v: string, j: nat)
    requires j < |v|
    ensures (v + "/?")[j + 1..] == v[j + 1..] + "/?"
    ensures WordLen((v + "/?")[j + 1..]) == WordLen(v[j + 1..])
  {
    assert (v + "/?")[j + 1..] == v[j + 1..] + "/?";
    WordLenSlashSuffix(v[j + 1..]);
  }

  /** The trailing `/?` stays two plain characters after tokenizing. */
  lemma {:induction false} TokenizeSlashSuffix(v: string)
    ensures Tokenize(v + "/?") == Tokenize(v) + [Char('/'), Char('?')]
    decreases |v|
  {
    var x := v + "/?";
    var tail := [Char('/'), Char('?')];
    if v == [] {
      assert x == "/?";
      TokenizeSlashQuestion();
    } else {
      TokenAtSlashSuffix(v);
      var n, p := TokenizeStep(v);
      SlashSuffixFirstPiece(v, n, p);
      TokenizeSlashSuffix(v[n..]);
      HeadThenTail(Tokenize(x), Tokenize(v), [p], Tokenize(v[n..] + "/?"), Tokenize(v[n..]), tail);
    }
  }

  /** Appending `/?` leaves the first piece, and what follows it gains the `/?`. */
  lemma SlashSuffixFirstPiece(v: string, n: nat, p: Piece)
    requires v != [] && TokenAt(v + "/?") == TokenAt(v)
    requires (p, n) == FirstPiece(TokenAt(v), v[0]) && n <= |v|
    ensures Tokenize(v + "/?") == [p] + Tokenize(v[n..] + "/?")
  {
    var x := v + "/?";
    assert x[0] == v[0];
    assert FirstPiece(TokenAt(x), x[0]) == (p, n);
    var n', p' := TokenizeStep(x);
    assert n' == n && p' == p;
    DropAppended(v, "/?", n);
  }

  /** What the first piece of a non-empty string is and how much of it it covers. */
  function FirstPiece(r: Option<Token>, c: char): (Piece, nat)
  {
    match r
    case Some(t) => (Named(t), |TokenText(t)|)
    case None => (Char(c), 1)
  }

  /** Tokenizing a non-empty string: its first piece, then the rest. */
  lemma TokenizeStep(s: string) returns (n: nat, p: Piece)
    requires s != []
    ensures (p, n) == FirstPiece(TokenAt(s), s[0])
    ensures 1 <= n <= |s| && Tokenize(s) == [p] + Tokenize(s[n..])
  {
    p, n := FirstPiece(TokenAt(s), s[0]).0, FirstPiece(TokenAt(s), s[0]).1;
  }

  /** The optional trailing slash holds no token. */
  lemma TokenizeSlashQuestion()
    ensures Tokenize("/?") == [Char('/'), Char('?')]
  {
    assert TokenAt("/?") == None;
    assert "/?"[1..] == "?";
    assert TokenAt("?") == None;
    assert "?"[1..] == [];
    assert Tokenize("?") == [Char('?')] + Tokenize([]);
  }

  lemma {:induction false} GroupSlashesSlashSuffix(v: string)
    ensures GroupSlashes(v + "/?") == GroupSlashes(v) + "/?"
    decreases |v|
  {
    var x := v + "/?";
    if v == [] {
      assert x == "/?";
      assert GroupSlashes("?") == "?";
    } else if |v| >= 2 && v[0] == '/' && v[1] == '(' {
      DropAppended(v, "/?", 2);
      assert x[0] == '/' && x[1] == '(';
      GroupSlashesSlashSuffix(v[2..]);
      ConcatAssoc("(?:/", GroupSlashes(v[2..]), "/?");
    } else {
      DropAppended(v, "/?", 1);
      assert x[0] == v[0] && !(|x| >= 2 && x[0] == '/' && x[1] == '(');
      GroupSlashesSlashSuffix(v[1..]);
      ConcatAssoc([v[0]], GroupSlashes(v[1..]), "/?");
    }
  }

  /** The strict source with `\/?` put back in front of the final `$`. */
  function Loosened(source: string): string
  {
    if source != [] && source[|source| - 1] == '$' then source[..|source| - 1] + "\\/?$" else source
  }

  /**
   * Unless `strict`, the compiled pattern is the strict one that also accepts an
   * escaped trailing slash, `\/?`, just before the `$` anchor; the keys do not
   * depend on `strict`.
   */
  lemma TrailingSlashUnlessStrict(spec: PathSpec, sensitive: bool)
    requires !spec.Pattern?
    ensures PathRegExp(spec, false, sensitive).regex.source == Loosened(PathRegExp(spec, true, sensitive).regex.source)
    ensures PathRegExp(spec, false, sensitive).keys == PathRegExp(spec, true, sensitive).keys
  {
    var text := PatternText(spec);
    assert PathRegExp(spec, false, sensitive) == Compile(text, false, sensitive);
    assert PathRegExp(spec, true, sensitive) == Compile(text, true, sensitive);
    BodyLoosened(text);
    AnchoredLoose(Body(text, true), Body(text, false));
  }

  lemma LoosenedAnchored(b: string)
    ensures Loosened("^" + b + "$") == "^" + b + "\\/?$"
  {
    assert "^" + b + "\\/?$" == "^" + b + "\\/?" + "$";
    assert ("^" + b + "$")[..|b| + 1] == "^" + b;
  }

  lemma BodyLoosened(text: string)
    ensures Body(text, false) == Body(text, true) + "\\/?"
    ensures KeysOf(Tokenize(Prepared(text, false))) == KeysOf(Tokenize(Prepared(text, true)))
  {
    var g := Prepared(text, true);
    GroupSlashesSlashSuffix(text);
    assert Prepared(text, false) == g + "/?";
    TokenizeSlashSuffix(g);
    ExpandTokensSlashSuffix(Tokenize(g));
    EscapeStarsSlashSuffix(ExpandTokens(Tokenize(g)));
  }

  lemma ExpandTokensSlashSuffix(ps: seq<Piece>)
    ensures ExpandTokens(ps + [Char('/'), Char('?')]) == ExpandTokens(ps) + "/?"
    ensures KeysOf(ps + [Char('/'), Char('?')]) == KeysOf(ps)
  {
    var tail := [Char('/'), Char('?')];
    ExpandTokensAppend(ps, tail);
    assert tail == Chars("/?");
    ExpandTokensChars("/?");
  }

  lemma EscapeStarsSlashSuffix(e: string)
    ensures ExpandStars(EscapeSlashDot(e + "/?")) == ExpandStars(EscapeSlashDot(e)) + "\\/?"
  {
    EscapeAppend(e, "/?");
    assert EscapeSlashDot("/?") == "\\/?";
    StarsAppend(EscapeSlashDot(e), "\\/?");
    assert ExpandStars("\\/?") == "\\/?";
  }

  /** A path with no token, no `*` and no `/(` only has its `/` and `.` escaped. */
  lemma PlainPathSource(text: string, strict: bool, sensitive: bool)
    requires ':' !in text && '*' !in text
    requires NoGroupedSlash(text)
    ensures PathRegExp(Literal(text), strict, sensitive)
         == Compiled(Regex("^" + EscapeSlashDot(text) + (if strict then "" else "\\/?") + "$", !sensitive), [])
  {
    PlainCompile(text, strict, sensitive);
    assert PathRegExp(Literal(text), strict, sensitive) == Compile(text, strict, sensitive);
  }

  lemma PlainCompile(text: string, strict: bool, sensitive: bool)
    requires ':' !in text && '*' !in text
    requires NoGroupedSlash(text)
    ensures Compile(text, strict, sensitive).regex.source == "^" + EscapeSlashDot(text) + (if strict then "" else "\\/?") + "$"
    ensures Compile(text, strict, sensitive).keys == []
  {
    PlainBody(text);
    if !strict {
      BodyLoosened(text);
      AnchoredLoose(Body(text, true), Body(text, false));
    }
  }

  /** Anchoring a body that ends in the optional escaped slash. */
  lemma AnchoredLoose(e: string, b: string)
    requires b == e + "\\/?"
    ensures "^" + b + "$" == "^" + e + "\\/?" + "$" == Loosened("^" + e + "$")
  {
    LoosenedAnchored(e);
  }

  lemma PlainBody(text: string)
    requires ':' !in text && '*' !in text
    requires NoGroupedSlash(text)
    ensures Body(text, true) == EscapeSlashDot(text) && KeysOf(Tokenize(Prepared(text, true))) == []
  {
    GroupSlashesIdentity(text);
    TokenizeNoColon(text);
    ExpandTokensChars(text);
    EscapeKeepsStarsOut(text);
    StarsIdentity(EscapeSlashDot(text));
  }

  /** Reading `\/` and `\.` back as `/` and `.`. */
  function Unescape(s: string): string
  {
    if |s| >= 2 && s[0] == '\\' && (s[1] == '/' || s[1] == '.') then [s[1]] + Unescape(s[2..])
    else if s == [] then []
    else [s[0]] + Unescape(s[1..])
  }

  lemma EscapeHead(s: string)
    ensures EscapeSlashDot(s) == [] <==> s == []
    ensures EscapeSlashDot(s) != [] ==> EscapeSlashDot(s)[0] != '/' && EscapeSlashDot(s)[0] != '.'
  {
  }

  /** Escaping loses nothing: the escaped text reads back as the path it came from. */
  lemma {:induction false} UnescapeEscape(s: string)
    ensures Unescape(EscapeSlashDot(s)) == s
  {
    if s != [] {
      var r := EscapeSlashDot(s[1..]);
      UnescapeEscape(s[1..]);
      EscapeHead(s[1..]);
      var x := EscapeChar(s[0]) + r;
      assert EscapeSlashDot(s) == x;
      if s[0] == '/' || s[0] == '.' {
        assert x[2..] == r;
      } else {
        assert x[1..] == r;
      }
    }
  }

  /** The named tokens among the pieces, left to right. */
  function Tokens(ps: seq<Piece>): seq<Token>
  {
    if ps == [] then [] else (if ps[0].Named? then [ps[0].token] else []) + Tokens(ps[1..])
  }

  /** One key per named token, in the same order, optional exactly when the token carries `?`. */
  lemma {:induction false} KeysFollowTokens(ps: seq<Piece>)
    ensures |KeysOf(ps)| == |Tokens(ps)|
    ensures forall i :: 0 <= i < |KeysOf(ps)| ==>
      KeysOf(ps)[i].name == Tokens(ps)[i].name && (KeysOf(ps)[i].optional <==> Tokens(ps)[i].optional)
  {
    if ps != [] {
      KeysFollowTokens(ps[1..]);
    }
  }

  // A token with a star ends in the optional group of slashes that the escape
  // and wildcard passes turn into `(\/(.*))?`: two capture groups for one key.
  lemma StarTokenGroups(t: Token)
    requires t.star
    ensures var r := ExpandStars(EscapeSlashDot(TokenRegexText(t)));
      |r| >= 9 && r[|r| - 9..] == "(\\/(.*))?"
  {
    var pre := TokenRegexText(t.(star := false));
    assert TokenRegexText(t) == pre + "(/*)?";
    EscapeAppend(pre, "(/*)?");
    StarGroupText();
    StarsAppend(EscapeSlashDot(pre), EscapeSlashDot("(/*)?"));
    var r0 := ExpandStars(EscapeSlashDot(pre));
    assert (r0 + "(\\/(.*))?")[|r0|..] == "(\\/(.*))?";
  }

  lemma StarGroupText()
    ensures ExpandStars(EscapeSlashDot("(/*)?")) == "(\\/(.*))?"
  {
    EscapeStarGroup();
    StarsOfEscapedGroup();
  }

  lemma EscapeStarGroup()
    ensures EscapeSlashDot("(/*)?") == "(\\/*)?"
  {
    assert EscapeSlashDot("*)?") == "*)?";
  }

  lemma StarsOfEscapedGroup()
    ensures ExpandStars("(\\/*)?") == "(\\/(.*))?"
  {
    assert ExpandStars(")?") == ")?";
  }

  /** What one piece contributes to the source once every pass has run. */
  function PieceSource(p: Piece): string
  {
    ExpandStars(EscapeSlashDot(PieceRegexText(p)))
  }

  function PiecesSource(ps: seq<Piece>): string
  {
    if ps == [] then [] else PieceSource(ps[0]) + PiecesSource(ps[1..])
  }

  /** The escape and wildcard passes act piece by piece on the expanded tokens. */
  lemma {:induction false} PassesPerPiece(ps: seq<Piece>)
    ensures ExpandStars(EscapeSlashDot(ExpandTokens(ps))) == PiecesSource(ps)
  {
    if ps != [] {
      PassesPerPiece(ps[1..]);
      EscapeAppend(PieceRegexText(ps[0]), ExpandTokens(ps[1..]));
      StarsAppend(EscapeSlashDot(PieceRegexText(ps[0])), EscapeSlashDot(ExpandTokens(ps[1..])));
    }
  }

  lemma {:induction false} EscapeIdentity(s: string)
    requires '/' !in s && '.' !in s
    ensures EscapeSlashDot(s) == s
  {
    if s != [] {
      EscapeIdentity(s[1..]);
      assert s == [s[0]] + s[1..];
    }
  }
}
