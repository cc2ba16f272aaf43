/**
 The primitive recognisers of the parser-combinator library the Markdown
 parser is written in, restated over `string` (`seq<char>`) with the
 library's "complete input" semantics: a parser maps its input either to a
 value and the unconsumed rest, or to failure. Error kinds and error
 positions are not modelled; every failure is the single value `Fail`.
 */
module Combinators {

  datatype Option<+T> = None | Some(value: T)

  /** The outcome of applying one parser: the value it recognised and the rest of the input, or failure. */
  datatype Result<+T> = Fail | Ok(value: T, rest: string) {

    /** `map(p, f)`: transform the value of a success, keep failures. */
    function Map<U>(f: T -> U): (r: Result<U>)
      ensures r.Ok? <==> Ok?
      ensures r.Ok? ==> r.value == f(value) && r.rest == rest
    {
      match this
      case Fail => Fail
      case Ok(v, rest) => Ok(f(v), rest)
    }
  }

  /** `alt((a, b))` once both alternatives have been applied to the same input: the first success wins. */
  function Alt<T>(a: Result<T>, b: Result<T>): (r: Result<T>)
    ensures a.Ok? ==> r == a
    ensures a.Fail? ==> r == b
  {
    if a.Ok? then a else b
  }

  /** Concatenation is associative; stated once so that the parsers' proofs need not rediscover it. */
  lemma Assoc(x: string, y: string, z: string)
    ensures x + (y + z) == x + y + z
  {
  }

  /** No character of `t` belongs to `stop`. */
  predicate NoneIn(t: string, stop: set<char>) {
    forall i :: 0 <= i < |t| ==> t[i] !in stop
  }

  /** `tag(t)`: the input must start with `t`, which is consumed; `tag("")` always succeeds. */
  function Tag(t: string, s: string): (r: Result<string>)
    ensures r.Ok? <==> t <= s
    ensures r.Ok? ==> r.value == t && s == t + r.rest
  {
    if t <= s then Ok(t, s[|t|..]) else Fail
  }

  /** `take(n)`: exactly `n` characters, failing on shorter input. */
  function Take(n: nat, s: string): (r: Result<string>)
    ensures r.Ok? <==> n <= |s|
    ensures r.Ok? ==> |r.value| == n && s == r.value + r.rest
  {
    if n <= |s| then Ok(s[..n], s[n..]) else Fail
  }

  /** Length of the longest prefix of `s` whose characters all satisfy `p`. */
  function SpanLen(p: char -> bool, s: string): (n: nat)
    ensures n <= |s|
    ensures forall i :: 0 <= i < n ==> p(s[i])
    ensures n < |s| ==> !p(s[n])
  {
    if s == [] || !p(s[0]) then 0 else 1 + SpanLen(p, s[1..])
  }

  /** `take_while1(p)`: the longest non-empty prefix whose characters satisfy `p`. */
  function TakeWhile1(p: char -> bool, s: string): (r: Result<string>)
    ensures r.Ok? <==> s != [] && p(s[0])
    ensures r.Ok? ==> s == r.value + r.rest && r.value != []
    ensures r.Ok? ==> (forall i :: 0 <= i < |r.value| ==> p(r.value[i]))
    ensures r.Ok? ==> r.rest == [] || !p(r.rest[0])
  {
    var n := SpanLen(p, s);
    assert s != [] && p(s[0]) ==> n > 0;
    if n == 0 then Fail else Ok(s[..n], s[n..])
  }

  /** Any decomposition into a maximal non-empty `p`-run and a rest is the one `take_while1` finds. */
  lemma TakeWhile1Exact(p: char -> bool, t: string, rest: string)
    requires t != [] && forall i :: 0 <= i < |t| ==> p(t[i])
    requires rest == [] || !p(rest[0])
    ensures TakeWhile1(p, t + rest) == Ok(t, rest)
  {
    var s := t + rest;
    assert SpanLen(p, s) == |t| by {
      assert forall i :: 0 <= i < |t| ==> s[i] == t[i];
      assert |t| < |s| ==> s[|t|] == rest[0];
    }
    assert s[..|t|] == t && s[|t|..] == rest;
  }

  /**
   `is_not(stop)`: the longest non-empty prefix holding no character of the
   SET `stop` (so `is_not("**")` stops at the first single `*`).
   */
  function IsNot(stop: set<char>, s: string): (r: Result<string>)
    ensures r.Ok? <==> s != [] && s[0] !in stop
    ensures r.Ok? ==> s == r.value + r.rest && r.value != [] && NoneIn(r.value, stop)
    ensures r.Ok? ==> r.rest == [] || r.rest[0] in stop
  {
    TakeWhile1(c => c !in stop, s)
  }

  lemma IsNotExact(stop: set<char>, t: string, rest: string)
    requires t != [] && NoneIn(t, stop)
    requires rest == [] || rest[0] in stop
    ensures IsNot(stop, t + rest) == Ok(t, rest)
  {
    TakeWhile1Exact(c => c !in stop, t, rest);
  }

  /** `delimited(tag(open), is_not(stop), tag(close))`, the shape of every bracketed construct. */
  function Delimited(open: string, stop: set<char>, close: string, s: string): (r: Result<string>)
    ensures r.Ok? ==> s == open + r.value + close + r.rest
    ensures r.Ok? ==> r.value != [] && NoneIn(r.value, stop)
  {
    match Tag(open, s)
    case Fail => Fail
    case Ok(_, afterOpen) =>
      match IsNot(stop, afterOpen)
      case Fail => Fail
      case Ok(body, afterBody) =>
        match Tag(close, afterBody)
        case Fail => Fail
        case Ok(_, rest) =>
          Split3(s, open, body, close, rest, afterOpen, afterBody);
          Ok(body, rest)
  }

  /** Three pieces read one after the other lie side by side in the input. */
  lemma Split3(s: string, a: string, b: string, c: string, rest: string, afterA: string, afterB: string)
    requires s == a + afterA && afterA == b + afterB && afterB == c + rest
    ensures s == a + b + c + rest
  {
    Assoc(a, b, afterB);
    Assoc(a + b, c, rest);
  }

  /** When the closing delimiter begins with a stop character, `open + t + close` is recognised exactly. */
  lemma DelimitedExact(open: string, stop: set<char>, close: string, t: string, rest: string)
    requires t != [] && NoneIn(t, stop)
    requires close != [] && close[0] in stop
    ensures Delimited(open, stop, close, open + t + close + rest) == Ok(t, rest)
  {
    var s := open + t + close + rest;
    assert s[..|open|] == open && s[|open|..] == t + (close + rest);
    IsNotExact(stop, t, close + rest);
    assert (close + rest)[..|close|] == close && (close + rest)[|close|..] == rest;
  }
}
