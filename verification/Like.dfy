/** SQL LIKE: a compiler from patterns to token lists, a matcher, and a bounded cache of compiled patterns. */
module Like {
  import opened Prelude
  import opened Text

  const CACHE_LIMIT := 512

  /** One piece of the compiled regular expression: any run of characters, any one character, or a literal. */
  datatype Token = AnyRun | AnyOne | Literal(c: char)

  /** A pattern that ends in a dangling escape compiles to no expression and never matches. */
  datatype Compiled = Never | Tokens(tokens: seq<Token>)

  /** The escape is compared with single characters, so only a one-character escape can ever take effect. */
  predicate IsEscape(escape: Option<string>, c: char) { escape == Some([c]) }

  // ---- What LIKE means ----

  /** Character by character over the pattern itself. */
  predicate Matches(pattern: string, escape: Option<string>, value: string)
    decreases |pattern|, |value|
  {
    if |pattern| == 0 then |value| == 0
    else
      var c, rest := pattern[0], pattern[1..];
      if IsEscape(escape, c) then
        |rest| > 0 && |value| > 0 && value[0] == rest[0] && Matches(rest[1..], escape, value[1..])
      else if c == '%' then
        Matches(rest, escape, value) || (|value| > 0 && Matches(pattern, escape, value[1..]))
      else if c == '_' then |value| > 0 && Matches(rest, escape, value[1..])
      else |value| > 0 && value[0] == c && Matches(rest, escape, value[1..])
  }

  /** A pattern without wildcards and escapes matches itself alone. */
  lemma {:induction false} PlainMatchesItself(pattern: string, escape: Option<string>, value: string)
    requires forall c | c in pattern :: c != '%' && c != '_' && !IsEscape(escape, c)
    ensures Matches(pattern, escape, value) <==> value == pattern
  {
    if |pattern| > 0 {
      assert pattern == [pattern[0]] + pattern[1..];
      forall c | c in pattern[1..] ensures c != '%' && c != '_' && !IsEscape(escape, c) { assert c in pattern; }
      if |value| > 0 {
        PlainMatchesItself(pattern[1..], escape, value[1..]);
        assert value == [value[0]] + value[1..];
      }
    }
  }

  /** A percent sign stands for any run of characters, the empty one included. */
  lemma {:induction false} PercentMatchesRuns(rest: string, escape: Option<string>, value: string)
    requires !IsEscape(escape, '%')
    ensures Matches("%" + rest, escape, value) <==> exists i :: 0 <= i <= |value| && Matches(rest, escape, value[i..])
    decreases |value|
  {
    var pattern := "%" + rest;
    assert pattern[1..] == rest && value[0..] == value;
    if |value| > 0 {
      PercentMatchesRuns(rest, escape, value[1..]);
      if i :| 0 <= i <= |value[1..]| && Matches(rest, escape, value[1..][i..]) {
        assert value[1..][i..] == value[i + 1..];
      }
      if i :| 0 <= i <= |value| && Matches(rest, escape, value[i..]) {
        if i > 0 { assert value[i..] == value[1..][i - 1..]; }
      }
    }
  }

  /** An underscore stands for exactly one character, and an escape makes the next character stand for itself. */
  lemma OneCharacterEach(rest: string, escape: Option<string>, value: string, mark: char, c: char)
    ensures !IsEscape(escape, '_') ==>
              (Matches("_" + rest, escape, value) <==> |value| > 0 && Matches(rest, escape, value[1..]))
    ensures IsEscape(escape, mark) ==>
              (Matches([mark, c] + rest, escape, value) <==>
               |value| > 0 && value[0] == c && Matches(rest, escape, value[1..])) &&
              !Matches([mark], escape, value)
  {
    assert ("_" + rest)[1..] == rest;
    assert ([mark, c] + rest)[1..] == [c] + rest && ([c] + rest)[1..] == rest;
  }

  // ---- The compiled form ----

  function TokenOf(c: char, escaped: bool): Token {
    if !escaped && c == '%' then AnyRun else if !escaped && c == '_' then AnyOne else Literal(c)
  }

  /** The tokens of a pattern read from a point where `escaped` says whether an escape is pending; None when one
      dangles. */
  function Parse(pattern: string, escape: Option<string>, escaped: bool): Option<seq<Token>> {
    if |pattern| == 0 then (if escaped then None else Some([]))
    else if !escaped && IsEscape(escape, pattern[0]) then Parse(pattern[1..], escape, true)
    else
      var rest := Parse(pattern[1..], escape, false);
      if rest.None? then None else Some([TokenOf(pattern[0], escaped)] + rest.value)
  }

  function Compile(pattern: string, escape: Option<string>): Compiled {
    match Parse(pattern, escape, false)
    case None => Never
    case Some(tokens) => Tokens(tokens)
  }

  /** The strings a token list denotes: a run stands for any prefix whatever. */
  ghost predicate Denotes(tokens: seq<Token>, value: string) {
    if |tokens| == 0 then |value| == 0
    else
      match tokens[0]
      case AnyRun => exists i :: 0 <= i <= |value| && Denotes(tokens[1..], value[i..])
      case AnyOne => |value| > 0 && Denotes(tokens[1..], value[1..])
      case Literal(c) => |value| > 0 && value[0] == c && Denotes(tokens[1..], value[1..])
  }

  /** A run can be taken one character at a time. */
  lemma RunStepwise(tokens: seq<Token>, value: string)
    requires |tokens| > 0 && tokens[0].AnyRun?
    ensures Denotes(tokens, value) <==>
            Denotes(tokens[1..], value) || (|value| > 0 && Denotes(tokens, value[1..]))
  {
    var rest := tokens[1..];
    assert value[0..] == value;
    if i :| 0 <= i <= |value| && Denotes(rest, value[i..]) {
      if i > 0 { assert value[i..] == value[1..][i - 1..]; }
    }
    if |value| > 0 && Denotes(tokens, value[1..]) {
      var i :| 0 <= i <= |value[1..]| && Denotes(rest, value[1..][i..]);
      assert value[1..][i..] == value[i + 1..];
    }
  }

  /** The compiled pattern accepts exactly the values LIKE accepts; a dangling escape accepts none. */
  lemma {:induction false} CompileIsCorrect(pattern: string, escape: Option<string>, value: string)
    ensures var parsed := Parse(pattern, escape, false);
            Matches(pattern, escape, value) <==> parsed.Some? && Denotes(parsed.value, value)
    decreases |pattern|, |value|
  {
    if |pattern| == 0 {
    } else {
      var c, rest := pattern[0], pattern[1..];
      if IsEscape(escape, c) {
        if |rest| > 0 && |value| > 0 { CompileIsCorrect(rest[1..], escape, value[1..]); }
        ParseEscaped(rest, escape);
      } else {
        var parsed := Parse(rest, escape, false);
        if parsed.Some? { assert ([TokenOf(c, false)] + parsed.value)[1..] == parsed.value; }
        CompileIsCorrect(rest, escape, value);
        if |value| > 0 {
          CompileIsCorrect(rest, escape, value[1..]);
          if c == '%' { CompileIsCorrect(pattern, escape, value[1..]); }
        }
        if c == '%' && parsed.Some? { RunStepwise([AnyRun] + parsed.value, value); }
      }
    }
  }

  lemma ParseEscaped(rest: string, escape: Option<string>)
    ensures var parsed := Parse(rest, escape, true);
            (|rest| == 0 ==> parsed.None?) &&
            (|rest| > 0 ==>
               var tail := Parse(rest[1..], escape, false);
               (parsed.Some? <==> tail.Some?) &&
               (parsed.Some? ==>
                  |parsed.value| > 0 && parsed.value[0] == Literal(rest[0]) && parsed.value[1..] == tail.value))
  {}

  // ---- The compiling loop ----

  function Prepend(tokens: seq<Token>, rest: Option<seq<Token>>): Option<seq<Token>> {
    if rest.None? then None else Some(tokens + rest.value)
  }

  lemma PrependToken(tokens: seq<Token>, t: Token, rest: Option<seq<Token>>)
    ensures Prepend(tokens + [t], rest) == Prepend(tokens, Prepend([t], rest))
  {
    if rest.Some? { assert tokens + [t] + rest.value == tokens + ([t] + rest.value); }
  }

  lemma PrependNothing(rest: Option<seq<Token>>)
    ensures Prepend([], rest) == rest
  {
    if rest.Some? { assert [] + rest.value == rest.value; }
  }

  method CompilePattern(pattern: string, escape: Option<string>) returns (compiled: Compiled)
    ensures compiled == Compile(pattern, escape)
  {
    var tokens: seq<Token> := [];
    var escaped := false;
    assert pattern[0..] == pattern;
    PrependNothing(Parse(pattern, escape, false));
    for i := 0 to |pattern|
      invariant Parse(pattern, escape, false) == Prepend(tokens, Parse(pattern[i..], escape, escaped))
    {
      var c := pattern[i];
      assert pattern[i..][1..] == pattern[i + 1..];
      if !escaped && IsEscape(escape, c) {
        escaped := true;
      } else {
        PrependToken(tokens, TokenOf(c, escaped), Parse(pattern[i + 1..], escape, false));
        tokens := tokens + [TokenOf(c, escaped)];
        escaped := false;
      }
    }
    assert pattern[|pattern|..] == "";
    assert !escaped ==> tokens + [] == tokens;
    compiled := if escaped then Never else Tokens(tokens);
  }

  // ---- Running the compiled expression ----

  /** Full match of a token list, by backtracking over runs. */
  function FullMatch(tokens: seq<Token>, value: string): (r: bool)
    ensures r <==> Denotes(tokens, value)
    decreases |tokens|, |value|
  {
    if |tokens| == 0 then |value| == 0
    else if tokens[0].AnyRun? then
      RunStepwise(tokens, value);
      FullMatch(tokens[1..], value) || (|value| > 0 && FullMatch(tokens, value[1..]))
    else |value| > 0 && (tokens[0].AnyOne? || tokens[0].c == value[0]) && FullMatch(tokens[1..], value[1..])
  }

  predicate Run(compiled: Compiled, value: string) {
    compiled.Tokens? && FullMatch(compiled.tokens, value)
  }

  lemma RunIsLike(pattern: string, escape: Option<string>, value: string)
    ensures Run(Compile(pattern, escape), value) <==> Matches(pattern, escape, value)
  {
    CompileIsCorrect(pattern, escape, value);
  }

  // ---- The SQL function and its cache ----

  type Key = (string, Option<string>)

  function Folded(escape: Option<string>): Option<string> {
    match escape
    case None => None
    case Some(e) => Some(Fold(e))
  }

  /** LIKE without a cache: null in, null out; otherwise case-insensitive matching. */
  function Answer(pattern: Option<string>, value: Option<string>, escape: Option<string>): Option<bool> {
    if pattern.None? || value.None? then None
    else Some(Matches(Fold(pattern.value), Folded(escape), Fold(value.value)))
  }

  lemma {:induction false} FoldTwice(s: string)
    ensures Fold(Fold(s)) == Fold(s)
  {
    if |s| > 0 {
      FoldTwice(s[1..]);
      assert Fold(s)[1..] == Fold(s[1..]);
    }
  }

  /** Capitals make no difference, in the pattern, the value or the escape; anything compared with null is null. */
  lemma CaseIsIgnored(pattern: string, value: string, escape: Option<string>)
    ensures Answer(Some(pattern), Some(value), escape) ==
            Answer(Some(Fold(pattern)), Some(Fold(value)), Folded(escape))
    ensures Answer(Some(pattern), Some(value), escape) == Some(Matches(Fold(pattern), Folded(escape), Fold(value)))
    ensures Answer(None, Some(value), escape) == None && Answer(Some(pattern), None, escape) == None
  {
    FoldTwice(pattern);
    FoldTwice(value);
    if escape.Some? { FoldTwice(escape.value); }
  }

  class Matcher {
    var cache: map<Key, Compiled>

    /** Cached entries are what compilation would give, and there are never more than the limit. */
    ghost predicate Valid()
      reads this
    {
      |cache| <= CACHE_LIMIT && forall key | key in cache :: cache[key] == Compile(key.0, key.1)
    }

    constructor ()
      ensures Valid() && cache == map[]
    {
      cache := map[];
    }

    method Remember(key: Key, compiled: Compiled)
      requires Valid() && compiled == Compile(key.0, key.1) && key !in cache
      modifies this
      ensures Valid() && key in cache && |cache| <= 512
      ensures cache == (if |old(cache)| >= CACHE_LIMIT then map[] else old(cache))[key := compiled]
    {
      if |cache| >= CACHE_LIMIT { cache := map[]; }
      cache := cache[key := compiled];
    }

    method LikeCall(pattern: Option<string>, value: Option<string>, escape: Option<string>) returns (r: Option<bool>)
      requires Valid()
      modifies this
      ensures Valid() && r == Answer(pattern, value, escape)
    {
      if pattern.None? || value.None? { return None; }
      var key: Key := (Fold(pattern.value), Folded(escape));
      var compiled: Compiled;
      if key in cache {
        compiled := cache[key];
      } else {
        compiled := CompilePattern(key.0, key.1);
        Remember(key, compiled);
      }
      RunIsLike(key.0, key.1, Fold(value.value));
      r := Some(Run(compiled, Fold(value.value)));
    }
  }

  // ---- Any sequence of calls ----

  datatype Call = Call(pattern: Option<string>, value: Option<string>, escape: Option<string>)

  method LikeCalls(m: Matcher, calls: seq<Call>) returns (answers: seq<Option<bool>>)
    requires m.Valid()
    modifies m
    ensures m.Valid() && |answers| == |calls|
    ensures forall k | 0 <= k < |calls| :: answers[k] == Answer(calls[k].pattern, calls[k].value, calls[k].escape)
  {
    answers := [];
    for k := 0 to |calls|
      invariant m.Valid() && |answers| == k
      invariant forall j | 0 <= j < k :: answers[j] == Answer(calls[j].pattern, calls[j].value, calls[j].escape)
    {
      var r := m.LikeCall(calls[k].pattern, calls[k].value, calls[k].escape);
      answers := answers + [r];
    }
  }
}
