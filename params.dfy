/**
 * How the dispatcher turns the capture groups of a match into `req.params`
 * (index.js:326-339): every defined capture is percent-decoded, capture i is
 * stored under the name of `keys[i-1]` when that key exists, and is pushed
 * positionally otherwise.
 */
module Params {
  import opened Wrappers
  import opened Patterns

  // ---------------------------------------------------------------------------
  // Percent-decoding

  predicate IsHexDigit(c: char)
  {
    '0' <= c <= '9' || 'a' <= c <= 'f' || 'A' <= c <= 'F'
  }

  function HexValue(c: char): (n: nat)
    requires IsHexDigit(c)
    ensures n < 16
  {
    if '0' <= c <= '9' then c as nat - '0' as nat
    else if 'a' <= c <= 'f' then c as nat - 'a' as nat + 10
    else c as nat - 'A' as nat + 10
  }

  /** The upper-case hex digit of `n`, as `encodeURIComponent` writes it. */
  function HexDigit(n: nat): (c: char)
    requires n < 16
    ensures IsHexDigit(c) && HexValue(c) == n
  {
    if n < 10 then ('0' as nat + n) as char else ('A' as nat + n - 10) as char
  }

  /**
   * `decodeURIComponent` on the escapes of single bytes below 0x80: every `%XX`
   * becomes the character with that code, every other character stays. A `%`
   * that does not start such an escape is a URIError, here `None`.
   */
  function PercentDecode(s: string): (r: Option<string>)
    ensures r.Some? ==> |r.value| <= |s|
    ensures r.Some? && |r.value| == |s| ==> r.value == s
    decreases |s|
  {
    if s == [] then Some([])
    else if s[0] != '%' then Prepend(s[0], PercentDecode(s[1..]))
    else if |s| >= 3 && IsHexDigit(s[1]) && IsHexDigit(s[2]) && HexValue(s[1]) < 8 then
      Prepend((HexValue(s[1]) * 16 + HexValue(s[2])) as char, PercentDecode(s[3..]))
    else None
  }

  function Prepend(c: char, r: Option<string>): Option<string>
  {
    if r.Some? then Some([c] + r.value) else None
  }

  /** Text without `%` decodes to itself. */
  lemma {:induction false} DecodePlain(s: string)
    requires '%' !in s
    ensures PercentDecode(s) == Some(s)
  {
    if s != [] {
      DecodePlain(s[1..]);
      assert s == [s[0]] + s[1..];
    }
  }

  /** The characters `encodeURIComponent` leaves as they are. */
  predicate IsUnreserved(c: char)
  {
    'a' <= c <= 'z' || 'A' <= c <= 'Z' || '0' <= c <= '9' ||
    c == '-' || c == '_' || c == '.' || c == '!' || c == '~' || c == '*' || c == '\'' || c == '(' || c == ')'
  }

  predicate IsAscii(s: string)
  {
    forall i :: 0 <= i < |s| ==> s[i] as nat < 0x80
  }

  /** `encodeURIComponent` on ASCII text: every reserved character becomes `%XX`. */
  function PercentEncode(s: string): string
    requires IsAscii(s)
  {
    if s == [] then []
    else EncodeChar(s[0]) + PercentEncode(s[1..])
  }

  function EncodeChar(c: char): string
    requires c as nat < 0x80
  {
    if IsUnreserved(c) then [c] else ['%', HexDigit(c as nat / 16), HexDigit(c as nat % 16)]
  }

  /** Decoding undoes encoding: a value written into a URL by `encodeURIComponent` reaches the route as it was. */
  lemma {:induction false} DecodeEncode(s: string)
    requires IsAscii(s)
    ensures PercentDecode(PercentEncode(s)) == Some(s)
  {
    if s != [] {
      DecodeEncode(s[1..]);
      var x := PercentEncode(s);
      var rest := PercentEncode(s[1..]);
      assert x == EncodeChar(s[0]) + rest;
      if IsUnreserved(s[0]) {
        assert x[1..] == rest;
      } else {
        var n := s[0] as nat;
        assert x[0] == '%' && x[1] == HexDigit(n / 16) && x[2] == HexDigit(n % 16);
        assert x[3..] == rest;
        assert HexValue(x[1]) * 16 + HexValue(x[2]) == n;
        assert (n as char) == s[0];
        assert PercentDecode(x) == Some([s[0]] + s[1..]);
      }
      assert [s[0]] + s[1..] == s;
    }
  }

  // ---------------------------------------------------------------------------
  // Pairing captures with keys

  /** `req.params`: a JavaScript array with named properties. */
  datatype Params = Params(named: map<string, Option<string>>, positional: seq<Option<string>>)

  /** A capture that could not be decoded: `decodeURIComponent` threw a URIError. */
  datatype BadCapture = BadCapture(capture: string)

  /** A capture after line 331: undefined stays undefined, a string is decoded. */
  function DecodeCapture(c: Option<string>): (r: Result<Option<string>, BadCapture>)
    ensures r.Ok? <==> c.None? || PercentDecode(c.value).Some?
    ensures r.Ok? ==> (r.value.Some? <==> c.Some?) && (c.Some? ==> r.value == PercentDecode(c.value))
    ensures r.Err? ==> c.Some? && r.error == BadCapture(c.value)
  {
    match c
    case None => Ok(None)
    case Some(s) =>
      match PercentDecode(s)
      case Some(t) => Ok(Some(t))
      case None => Err(BadCapture(s))
  }

  /** Every capture decoded, or the first one that cannot be. */
  function DecodeAll(caps: seq<Option<string>>): (r: Result<seq<Option<string>>, BadCapture>)
    ensures r.Ok? ==> |r.value| == |caps|
  {
    if caps == [] then Ok([])
    else match DecodeCapture(caps[0])
      case Err(e) => Err(e)
      case Ok(v) =>
        match DecodeAll(caps[1..])
        case Err(e) => Err(e)
        case Ok(vs) => Ok([v] + vs)
  }

  /**
   * Decoding succeeds exactly when every capture decodes; the values are then
   * the captures decoded one by one, and otherwise the error is the one of the
   * first capture that does not decode.
   */
  lemma {:induction false} DecodeAllMeaning(caps: seq<Option<string>>)
    ensures DecodeAll(caps).Ok? <==> forall i :: 0 <= i < |caps| ==> DecodeCapture(caps[i]).Ok?
    ensures DecodeAll(caps).Ok? ==>
      forall i :: 0 <= i < |caps| ==> DecodeCapture(caps[i]) == Ok(DecodeAll(caps).value[i])
    ensures DecodeAll(caps).Err? ==>
      exists k :: 0 <= k < |caps| && DecodeCapture(caps[k]) == Err(DecodeAll(caps).error) &&
        forall j :: 0 <= j < k ==> DecodeCapture(caps[j]).Ok?
  {
    if caps != [] {
      var rest := caps[1..];
      DecodeAllMeaning(rest);
      assert forall i :: 1 <= i < |caps| ==> caps[i] == rest[i - 1];
      if DecodeCapture(caps[0]).Ok? && DecodeAll(rest).Err? {
        var k :| 0 <= k < |rest| && DecodeCapture(rest[k]) == Err(DecodeAll(rest).error) &&
          forall j :: 0 <= j < k ==> DecodeCapture(rest[j]).Ok?;
        assert DecodeCapture(caps[k + 1]) == Err(DecodeAll(caps).error);
      }
    }
  }

  /** The named properties after the first `n` values were assigned, a later key overwriting an earlier one of the same name. */
  function NamedUpTo(keys: seq<Key>, values: seq<Option<string>>, n: nat): map<string, Option<string>>
    requires n <= |keys| && n <= |values|
  {
    if n == 0 then map[] else NamedUpTo(keys, values, n - 1)[keys[n - 1].name := values[n - 1]]
  }

  function Min(a: nat, b: nat): nat
  {
    if a <= b then a else b
  }

  /** `req.params` for already-decoded values: the first `|keys|` named, the rest pushed. */
  function Paired(keys: seq<Key>, values: seq<Option<string>>): Params
  {
    var n := Min(|keys|, |values|);
    Params(NamedUpTo(keys, values, n), values[n..])
  }

  /** The parameters of a match, or the capture whose decoding threw. */
  function ParamsOf(keys: seq<Key>, caps: seq<Option<string>>): Result<Params, BadCapture>
  {
    match DecodeAll(caps)
    case Err(e) => Err(e)
    case Ok(values) => Ok(Paired(keys, values))
  }

  /**
   * The loop of index.js:328-339: capture i+1 goes under `keys[i].name` when
   * there is such a key and is pushed otherwise; a capture that cannot be
   * decoded stops the loop with the URIError.
   */
  method BuildParams(keys: seq<Key>, caps: seq<Option<string>>) returns (r: Result<Params, BadCapture>)
    ensures r == ParamsOf(keys, caps)
  {
    var named: map<string, Option<string>> := map[];
    var positional: seq<Option<string>> := [];
    ghost var values: seq<Option<string>> := [];
    var i := 0;
    while i < |caps|
      invariant 0 <= i <= |caps|
      invariant DecodeAll(caps[..i]) == Ok(values)
      invariant named == NamedUpTo(keys, values, Min(i, |keys|))
      invariant positional == values[Min(i, |keys|)..]
    {
      var value := DecodeCapture(caps[i]);
      DecodeAllSnoc(caps, i);
      if value.Err? {
        DecodeAllFails(caps, i + 1);
        return Err(value.error);
      }
      NamedUpToPrefix(keys, values, [value.value], Min(i, |keys|));
      if i < |keys| {
        named := named[keys[i].name := value.value];
      } else {
        positional := positional + [value.value];
      }
      values := values + [value.value];
      i := i + 1;
    }
    assert caps[..i] == caps;
    r := Ok(Params(named, positional));
  }

  /** The names assigned from the first `n` values do not depend on the values after them. */
  lemma {:induction false} NamedUpToPrefix(keys: seq<Key>, values: seq<Option<string>>, extra: seq<Option<string>>, n: nat)
    requires n <= |keys| && n <= |values|
    ensures NamedUpTo(keys, values + extra, n) == NamedUpTo(keys, values, n)
  {
    if n > 0 {
      NamedUpToPrefix(keys, values, extra, n - 1);
      assert (values + extra)[n - 1] == values[n - 1];
    }
  }

  lemma DecodeAllSnoc(caps: seq<Option<string>>, i: nat)
    requires i < |caps|
    ensures DecodeAll(caps[..i + 1]) ==
      match DecodeAll(caps[..i])
      case Err(e) => Err(e)
      case Ok(vs) => match DecodeCapture(caps[i]) case Err(e) => Err(e) case Ok(v) => Ok(vs + [v])
  {
    DecodeAllAppend(caps[..i], [caps[i]]);
    assert caps[..i + 1] == caps[..i] + [caps[i]];
  }

  lemma {:induction false} DecodeAllAppend(a: seq<Option<string>>, b: seq<Option<string>>)
    requires |b| == 1
    ensures DecodeAll(a + b) ==
      match DecodeAll(a)
      case Err(e) => Err(e)
      case Ok(vs) => match DecodeCapture(b[0]) case Err(e) => Err(e) case Ok(v) => Ok(vs + [v])
  {
    if a == [] {
      assert a + b == b && b[1..] == [];
      assert DecodeAll(b[1..]) == Ok([]);
      if DecodeCapture(b[0]).Ok? {
        assert [DecodeCapture(b[0]).value] + [] == [] + [DecodeCapture(b[0]).value];
      }
    } else {
      DecodeAllAppend(a[1..], b);
      assert (a + b)[0] == a[0] && (a + b)[1..] == a[1..] + b;
      if DecodeCapture(a[0]).Ok? && DecodeAll(a[1..]).Ok? && DecodeCapture(b[0]).Ok? {
        var v, vs, w := DecodeCapture(a[0]).value, DecodeAll(a[1..]).value, DecodeCapture(b[0]).value;
        assert [v] + (vs + [w]) == [v] + vs + [w];
      }
    }
  }

  /** Once a prefix fails to decode, so does the whole list. */
  lemma {:induction false} DecodeAllFails(caps: seq<Option<string>>, n: nat)
    requires n <= |caps| && DecodeAll(caps[..n]).Err?
    ensures DecodeAll(caps) == DecodeAll(caps[..n])
  {
    if caps != [] && n > 0 {
      assert caps[..n][0] == caps[0] && caps[..n][1..] == caps[1..][..n - 1];
      if DecodeCapture(caps[0]).Ok? {
        DecodeAllFails(caps[1..], n - 1);
      }
    }
  }

  /** The names assigned are exactly those of the keys that received a value. */
  lemma {:induction false} NamedUpToDomain(keys: seq<Key>, values: seq<Option<string>>, n: nat)
    requires n <= |keys| && n <= |values|
    ensures forall name :: name in NamedUpTo(keys, values, n) <==> exists k :: 0 <= k < n && keys[k].name == name
  {
    if n > 0 {
      NamedUpToDomain(keys, values, n - 1);
      var m := NamedUpTo(keys, values, n - 1);
      assert NamedUpTo(keys, values, n) == m[keys[n - 1].name := values[n - 1]];
      forall name | name in NamedUpTo(keys, values, n)
        ensures exists k :: 0 <= k < n && keys[k].name == name
      {
        if name == keys[n - 1].name {
          assert keys[n - 1].name == name;
        } else {
          assert name in m;
          var k :| 0 <= k < n - 1 && keys[k].name == name;
          assert 0 <= k < n && keys[k].name == name;
        }
      }
    }
  }

  /** Value k is stored under `keys[k].name` when no later key has the same name. */
  lemma {:induction false} NamedUpToValue(keys: seq<Key>, values: seq<Option<string>>, n: nat, k: nat)
    requires k < n <= |keys| && n <= |values|
    requires forall j :: k < j < n ==> keys[j].name != keys[k].name
    ensures keys[k].name in NamedUpTo(keys, values, n) && NamedUpTo(keys, values, n)[keys[k].name] == values[k]
  {
    if k < n - 1 {
      NamedUpToValue(keys, values, n - 1, k);
    }
  }

  /**
   * `req.params` pairs values with keys by position: value k is stored under
   * `keys[k].name` when no later key has the same name, and the values past
   * the last key are pushed in order.
   */
  lemma PairedMeaning(keys: seq<Key>, values: seq<Option<string>>)
    ensures var p := Paired(keys, values);
      |p.positional| == (if |values| <= |keys| then 0 else |values| - |keys|) &&
      forall i :: |keys| <= i < |values| ==> p.positional[i - |keys|] == values[i]
    ensures forall k :: 0 <= k < |keys| && k < |values| && (forall j :: k < j < |keys| && j < |values| ==> keys[j].name != keys[k].name) ==>
      keys[k].name in Paired(keys, values).named && Paired(keys, values).named[keys[k].name] == values[k]
    ensures forall name :: name in Paired(keys, values).named <==> exists k :: 0 <= k < |keys| && k < |values| && keys[k].name == name
  {
    var n := Min(|keys|, |values|);
    NamedUpToDomain(keys, values, n);
    forall k | 0 <= k < |keys| && k < |values| && (forall j :: k < j < |keys| && j < |values| ==> keys[j].name != keys[k].name)
      ensures keys[k].name in Paired(keys, values).named && Paired(keys, values).named[keys[k].name] == values[k]
    {
      NamedUpToValue(keys, values, n, k);
    }
  }

  /** A route without keys, such as a bare wildcard route, receives its captures as positional parameters, decoded. */
  /**
   * Without keys every capture is pushed: the parameters exist exactly when
   * every capture decodes, nothing is named, and the i-th positional value is
   * the i-th capture decoded.
   */
  lemma KeylessParams(caps: seq<Option<string>>)
    ensures ParamsOf([], caps).Ok? <==> forall i :: 0 <= i < |caps| ==> DecodeCapture(caps[i]).Ok?
    ensures ParamsOf([], caps).Ok? ==>
      ParamsOf([], caps).value.named == map[] && |ParamsOf([], caps).value.positional| == |caps| &&
      forall i :: 0 <= i < |caps| ==> DecodeCapture(caps[i]) == Ok(ParamsOf([], caps).value.positional[i])
  {
    DecodeAllMeaning(caps);
  }

  lemma UnnamedCaptures(caps: seq<string>)
    requires forall i :: 0 <= i < |caps| ==> '%' !in caps[i]
    ensures ParamsOf([], seq(|caps|, i requires 0 <= i < |caps| => Some(caps[i])))
         == Ok(Params(map[], seq(|caps|, i requires 0 <= i < |caps| => Some(caps[i]))))
  {
    var c := seq(|caps|, i requires 0 <= i < |caps| => Some(caps[i]));
    forall i | 0 <= i < |caps| { DecodePlain(caps[i]); }
    DecodeAllPlain(c);
  }

  lemma {:induction false} DecodeAllPlain(c: seq<Option<string>>)
    requires forall i :: 0 <= i < |c| ==> c[i].Some? && PercentDecode(c[i].value) == Some(c[i].value)
    ensures DecodeAll(c) == Ok(c)
  {
    if c != [] {
      DecodeAllPlain(c[1..]);
      assert c == [c[0]] + c[1..];
    }
  }
}
