/** The regular expressions of `extractVariables` are all sequences of
    three kinds of pieces: a literal text, a greedy `[\w$]+` or `\w+`, and
    a one-character class such as `[,;]`. This module matches such a
    sequence at one position, as a backtracking engine would, and searches
    for the leftmost position, as `String.prototype.match` does. */
module Patterns {
  import opened Results
  import opened Text

  datatype Token =
    | Lit(text: string)    // the text itself
    | Name(dollar: bool)   // `[\w$]+` when dollar, otherwise `\w+`
    | OneOf(chars: string) // one character from chars

  /** `piece` is a text the token can match. */
  predicate Fits(piece: string, t: Token)
  {
    match t
    case Lit(s) => piece == s
    case Name(d) => |piece| > 0 && forall k | 0 <= k < |piece| :: InClass(piece[k], d)
    case OneOf(cs) => |piece| == 1 && piece[0] in cs
  }

  /** One piece per token, each fitting its token. */
  predicate AllFit(ps: seq<string>, toks: seq<Token>)
  {
    |ps| == |toks| && forall k | 0 <= k < |ps| :: Fits(ps[k], toks[k])
  }

  /** The pieces written one after another. */
  function Concat(ps: seq<string>): string
  {
    if ps == [] then [] else ps[0] + Concat(ps[1..])
  }

  /** The text the token matches at `i`: the greedy run for a name. */
  function TokenAt(t: Token, n: string, i: nat): (r: Option<string>)
    requires i <= |n|
    ensures r.Some? ==> Fits(r.value, t) && OccursAt(n, r.value, i)
  {
    match t
    case Lit(s) => if OccursAt(n, s, i) then Some(s) else None
    case Name(d) => NameAt(n, i, d)
    case OneOf(cs) => if i < |n| && n[i] in cs then Some([n[i]]) else None
  }

  /** The pattern tried at position `i`: the pieces it matches, or None. */
  function MatchAt(toks: seq<Token>, n: string, i: nat): (r: Option<seq<string>>)
    requires i <= |n|
    ensures r.Some? ==> AllFit(r.value, toks) && OccursAt(n, Concat(r.value), i)
    decreases |toks|
  {
    if toks == [] then Some([])
    else match TokenAt(toks[0], n, i)
    case None => None
    case Some(x) =>
      match MatchAt(toks[1..], n, i + |x|)
      case None => None
      case Some(rest) =>
        OccursAtConcat(n, x, Concat(rest), i);
        assert Concat([x] + rest) == x + Concat(rest) by { assert ([x] + rest)[1..] == rest; }
        Some([x] + rest)
  }

  /** The token's texts cannot begin with a character of the class
      `dollar`: it stops a greedy run before it. */
  predicate StartsOutside(t: Token, dollar: bool)
  {
    match t
    case Lit(s) => |s| > 0 && !InClass(s[0], dollar)
    case Name(_) => false
    case OneOf(cs) => forall k | 0 <= k < |cs| :: !InClass(cs[k], dollar)
  }

  /** Every name is followed by a token that stops it, so at a given
      position the pattern has at most one way to match. */
  predicate Deterministic(toks: seq<Token>)
  {
    forall k | 0 <= k < |toks| && toks[k].Name? :: k + 1 < |toks| && StartsOutside(toks[k + 1], toks[k].dollar)
  }

  /** A deterministic pattern finds every text of its shape: whatever
      pieces fit the tokens and occur at `i` are what the matcher returns
      there. */
  lemma {:induction false} MatchAtComplete(toks: seq<Token>, n: string, i: nat, ps: seq<string>)
    requires Deterministic(toks) && AllFit(ps, toks) && OccursAt(n, Concat(ps), i)
    ensures MatchAt(toks, n, i) == Some(ps)
    decreases |toks|
  {
    if toks != [] {
      var x, rest, j := ps[0], ps[1..], i + |ps[0]|;
      OccursAtPrefix(n, x, Concat(rest), i);
      HeadMatches(toks, n, i, ps);
      DeterministicTail(toks);
      AllFitTail(ps, toks);
      MatchAtComplete(toks[1..], n, j, rest);
      MatchAtCons(toks, n, i, x, rest);
      assert [ps[0]] + ps[1..] == ps;
    }
  }

  /** One step of the matcher: a first token matching `x` followed by a
      rest matching `rest`. */
  lemma MatchAtCons(toks: seq<Token>, n: string, i: nat, x: string, rest: seq<string>)
    requires toks != [] && i <= |n|
    requires TokenAt(toks[0], n, i) == Some(x)
    requires i + |x| <= |n| && MatchAt(toks[1..], n, i + |x|) == Some(rest)
    ensures MatchAt(toks, n, i) == Some([x] + rest)
  {
  }

  lemma AllFitTail(ps: seq<string>, toks: seq<Token>)
    requires toks != [] && AllFit(ps, toks)
    ensures AllFit(ps[1..], toks[1..]) && Fits(ps[0], toks[0])
  {
    forall k | 0 <= k < |ps[1..]| ensures Fits(ps[1..][k], toks[1..][k]) {
      assert ps[1..][k] == ps[k + 1] && toks[1..][k] == toks[k + 1];
    }
  }

  /** The first token of a deterministic pattern matches exactly the first
      piece of any fitting text. */
  lemma HeadMatches(toks: seq<Token>, n: string, i: nat, ps: seq<string>)
    requires toks != [] && Deterministic(toks) && AllFit(ps, toks) && OccursAt(n, Concat(ps), i)
    ensures TokenAt(toks[0], n, i) == Some(ps[0])
  {
    OccursAtPrefix(n, ps[0], Concat(ps[1..]), i);
    match toks[0] {
      case Lit(s) =>
      case OneOf(cs) => OccursAtHead(n, ps[0], i);
      case Name(d) =>
        var j := i + |ps[0]|;
        assert Concat(ps[1..]) == ps[1] + Concat(ps[2..]) by { assert ps[1..][1..] == ps[2..]; }
        OccursAtPrefix(n, ps[1], Concat(ps[2..]), j);
        StopsRun(ps[1], toks[1], d);
        OccursAtHead(n, ps[1], j);
        NameAtUnique(n, i, ps[0], d);
    }
  }

  /** A piece of a token that starts outside a class begins with a
      character outside it. */
  lemma StopsRun(piece: string, t: Token, dollar: bool)
    requires Fits(piece, t) && StartsOutside(t, dollar)
    ensures |piece| > 0 && !InClass(piece[0], dollar)
  {
    match t {
      case Lit(s) =>
      case OneOf(cs) =>
        var k :| 0 <= k < |cs| && cs[k] == piece[0];
    }
  }

  lemma DeterministicTail(toks: seq<Token>)
    requires toks != [] && Deterministic(toks)
    ensures Deterministic(toks[1..])
  {
    forall k | 0 <= k < |toks[1..]| && toks[1..][k].Name?
      ensures k + 1 < |toks[1..]| && StartsOutside(toks[1..][k + 1], toks[1..][k].dollar)
    {
      assert toks[1..][k] == toks[k + 1];
    }
  }

  /** `ps` are the pieces of the leftmost match: they occur at `q` and no
      text of the pattern's shape occurs earlier. */
  ghost predicate Leftmost(toks: seq<Token>, n: string, q: nat, ps: seq<string>)
  {
    && AllFit(ps, toks) && OccursAt(n, Concat(ps), q)
    && forall k, ps' | 0 <= k < q && AllFit(ps', toks) :: !OccursAt(n, Concat(ps'), k)
  }

  /** The first position at or after `k` where the pattern matches. */
  function MatchPos(toks: seq<Token>, n: string, k: nat): (r: Option<nat>)
    requires k <= |n|
    ensures r.Some? ==> k <= r.value <= |n| && MatchAt(toks, n, r.value).Some?
    ensures forall j | k <= j <= |n| && (r.None? || j < r.value) :: MatchAt(toks, n, j).None?
    decreases |n| - k
  {
    if MatchAt(toks, n, k).Some? then Some(k)
    else if k == |n| then None
    else MatchPos(toks, n, k + 1)
  }

  /** Where a deterministic pattern does not match, no text of its shape
      occurs. */
  lemma NoMatchNoText(toks: seq<Token>, n: string, j: nat, ps: seq<string>)
    requires Deterministic(toks) && AllFit(ps, toks)
    requires j > |n| || MatchAt(toks, n, j).None?
    ensures !OccursAt(n, Concat(ps), j)
  {
    if OccursAt(n, Concat(ps), j) {
      MatchAtComplete(toks, n, j, ps);
    }
  }

  /** Some text of the pattern's shape occurs in `n`. */
  ghost predicate HasShape(toks: seq<Token>, n: string)
  {
    exists k: nat, ps | AllFit(ps, toks) :: OccursAt(n, Concat(ps), k)
  }

  /** `ps` are the pieces of the leftmost text of the pattern's shape. */
  ghost predicate First(toks: seq<Token>, n: string, ps: seq<string>)
  {
    exists q: nat :: Leftmost(toks, n, q, ps)
  }

  /** `n.match(pattern)`: the pieces of the leftmost match, or None when
      no text of the pattern's shape occurs anywhere. */
  function FirstMatch(toks: seq<Token>, n: string): (r: Option<seq<string>>)
    requires Deterministic(toks)
    ensures r.Some? ==> First(toks, n, r.value)
    ensures r.None? <==> !HasShape(toks, n)
  {
    var pos := MatchPos(toks, n, 0);
    forall k: nat, ps | (pos.None? || k < pos.value) && AllFit(ps, toks)
      ensures !OccursAt(n, Concat(ps), k)
    {
      NoMatchNoText(toks, n, k, ps);
    }
    match pos
    case None => None
    case Some(q) =>
      assert Leftmost(toks, n, q, MatchAt(toks, n, q).value);
      MatchAt(toks, n, q)
  }

  /** The leftmost match of a deterministic pattern is unique, so its
      captures are determined by the text. */
  lemma FirstUnique(toks: seq<Token>, n: string, ps: seq<string>, ps': seq<string>)
    requires Deterministic(toks) && First(toks, n, ps) && First(toks, n, ps')
    ensures ps == ps'
  {
    var q: nat :| Leftmost(toks, n, q, ps);
    var q': nat :| Leftmost(toks, n, q', ps');
    if q < q' {
      assert false;
    } else if q' < q {
      assert false;
    } else {
      MatchAtComplete(toks, n, q, ps);
      MatchAtComplete(toks, n, q, ps');
    }
  }

  lemma FirstHasShape(toks: seq<Token>, n: string, ps: seq<string>)
    requires First(toks, n, ps)
    ensures HasShape(toks, n)
  {
    var q: nat :| Leftmost(toks, n, q, ps);
  }
}
