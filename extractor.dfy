/** The identifier extractor of `src/utils/keyboard.ts`
    (`extractVariables`): three regular expressions, each resolving roles
    from the name the previous one found. Each regular expression is
    written as a token pattern (see module Patterns); every greedy class in
    them is followed by a character outside the class, so `match` returns
    the pieces of the leftmost text of the pattern's shape. */
module Extractor {
  import opened Results
  import opened Text
  import opened Patterns

  /** The four characters `\x7f` that replace each raw DEL before the
      declaration is matched. */
  const DelEscape: string := "\\x7f"
  /** The text between the input name and the separator in the
      declaration: `.match(/\x7f/g)||[]).length`. */
  const CountTail: string := ".match(/\\x7f/g)||[]).length"
  /** What follows the input name: `.includes("`. */
  const IncludesCall: string := ".includes(\""

  /** The five role-bound names of one bug block. */
  datatype VarMap = VarMap(
    input: string,
    state: string,
    curState: string,
    updateText: string,
    updateOffset: string)

  /** One error per role that could not be resolved. */
  datatype ExtractError =
    | NoStateDeclaration  // the count/state declaration was not found
    | NoUpdateCalls       // the two update calls were not found
    | NoInputVariable     // the input name was not found

  /** Every role is bound to a non-empty `[\w$]+` name. */
  predicate WellFormed(v: VarMap)
  {
    && IsIdentifier(v.input) && IsIdentifier(v.state) && IsIdentifier(v.curState)
    && IsIdentifier(v.updateText) && IsIdentifier(v.updateOffset)
  }

  /** `block.replaceAll(DEL, "\\x7f")` */
  function Normalize(b: string): (n: string)
    ensures forall i | 0 <= i < |n| :: n[i] != Del
    ensures (forall i | 0 <= i < |b| :: b[i] != Del) ==> n == b
  {
    if b == [] then []
    else (if b[0] == Del then DelEscape else [b[0]]) + Normalize(b[1..])
  }

  /** The replacement works character by character: the result of a
      concatenation is the concatenation of the results, ... */
  lemma {:induction false} NormalizeAppend(a: string, c: string)
    ensures Normalize(a + c) == Normalize(a) + Normalize(c)
  {
    if a == [] {
      assert a + c == c;
    } else {
      assert (a + c)[1..] == a[1..] + c;
      NormalizeAppend(a[1..], c);
    }
  }

  /** ... a DEL becomes the four-character escape and every other
      character stays. */
  lemma NormalizeChar(x: char)
    ensures Normalize([x]) == if x == Del then DelEscape else [x]
  {
    assert [x][1..] == [];
  }

  /** Each DEL adds three characters. */
  lemma {:induction false} NormalizeLength(b: string)
    ensures |Normalize(b)| == |b| + 3 * multiset(b)[Del]
  {
    if b != [] {
      assert b == [b[0]] + b[1..];
      NormalizeLength(b[1..]);
    }
  }

  // ---------------------------------------------------------------------
  // The three regular expressions

  /** `let ([\w$]+)=\(\w+\.match\(\/\\x7f\/g\)\|\|\[\]\)\.length[,;]([\w$]+)=([\w$]+)[;,]`:
      pieces 6 and 8 are the state and the current state. */
  const DeclPattern: seq<Token> :=
    [Lit("let "), Name(true), Lit("=("), Name(false), Lit(CountTail), OneOf(",;"),
     Name(true), Lit("="), Name(true), OneOf(";,")]

  /** `([\w$]+)\(STATE\.text\);([\w$]+)\(STATE\.offset\)` for the state
      text `s`: pieces 0 and 2 are the two update functions. */
  function CallsPattern(s: string): seq<Token>
  {
    [Name(true), Lit("(" + s + ".text);"), Name(true), Lit("(" + s + ".offset)")]
  }

  /** `([\w$]+)\.includes\("`: piece 0 is the input name. */
  const InputPattern: seq<Token> := [Name(true), Lit(IncludesCall)]

  lemma PatternsDeterministic(s: string)
    ensures Deterministic(DeclPattern) && Deterministic(CallsPattern(s)) && Deterministic(InputPattern)
  {
  }

  // ---------------------------------------------------------------------
  // Escaping the state name: `state.replace(/[.*+?^${}()|[\]\\]/g, '\\$&')`

  /** The characters the escape prefixes with a backslash. */
  predicate IsRegexSpecial(c: char)
  {
    c in ".*+?^${}()|[]\\"
  }

  /** `s.replace(/[.*+?^${}()|[\]\\]/g, '\\$&')` */
  function RegexEscape(s: string): (e: string)
    ensures RegexLiteral(e) == s
  {
    if s == [] then []
    else
      var rest := RegexEscape(s[1..]);
      var e := (if IsRegexSpecial(s[0]) then ['\\', s[0]] else [s[0]]) + rest;
      assert if IsRegexSpecial(s[0]) then e[2..] == rest else e[1..] == rest;
      assert s == [s[0]] + s[1..];
      e
  }

  /** The text a regular-expression source without operators matches: a
      backslash stands for the character after it, any other character
      for itself. */
  function RegexLiteral(e: string): string
    decreases |e|
  {
    if e == [] then []
    else if e[0] == '\\' && |e| >= 2 then [e[1]] + RegexLiteral(e[2..])
    else [e[0]] + RegexLiteral(e[1..])
  }

  /** A regular-expression source in which every special character is
      escaped by a backslash and every backslash escapes a special
      character, so it holds no operator and no class such as `\d`. */
  predicate OnlyLiterals(e: string)
    decreases |e|
  {
    if e == [] then true
    else if e[0] == '\\' then |e| >= 2 && IsRegexSpecial(e[1]) && OnlyLiterals(e[2..])
    else !IsRegexSpecial(e[0]) && OnlyLiterals(e[1..])
  }

  /** The escaped name is operator-free: every backslash in it escapes a
      special character, and no special character stands unescaped. */
  lemma {:induction false} EscapeRoundTrip(s: string)
    ensures OnlyLiterals(RegexEscape(s))
  {
    if s != [] {
      var e := RegexEscape(s);
      var rest := RegexEscape(s[1..]);
      EscapeRoundTrip(s[1..]);
      if IsRegexSpecial(s[0]) {
        assert e == ['\\', s[0]] + rest;
        assert e[2..] == rest;
      } else {
        assert e == [s[0]] + rest;
        assert e[1..] == rest;
      }
    }
  }

  /** Among identifier characters only `$` is escaped. */
  lemma {:induction false} EscapeIdentifier(s: string)
    requires forall i | 0 <= i < |s| :: IsIdentChar(s[i])
    ensures (forall i | 0 <= i < |s| :: s[i] != '$') ==> RegexEscape(s) == s
  {
    if s != [] {
      EscapeIdentifier(s[1..]);
      if s[0] != '$' {
        IdentNotSpecial(s[0]);
      }
      assert RegexEscape(s) == (if IsRegexSpecial(s[0]) then ['\\', s[0]] else [s[0]]) + RegexEscape(s[1..]);
      assert s == [s[0]] + s[1..];
    }
  }

  lemma IdentNotSpecial(c: char)
    requires IsIdentChar(c) && c != '$'
    ensures !IsRegexSpecial(c)
  {
  }

  // ---------------------------------------------------------------------
  // extractVariables

  /** `extractVariables(block)`: the declaration on the normalized block,
      then the update calls on the block for the (escaped) state name, then
      the input name on the block. */
  function ExtractVariables(block: string): (r: Result<VarMap, ExtractError>)
    ensures r.Ok? ==> WellFormed(r.value) && Resolves(block, r.value)
    ensures r == Err(NoStateDeclaration) <==> !HasShape(DeclPattern, Normalize(block))
    ensures r == Err(NoUpdateCalls) <==> DeclOnly(block)
    ensures r == Err(NoInputVariable) <==> DeclAndCalls(block) && !HasShape(InputPattern, block)
  {
    var n := Normalize(block);
    PatternsDeterministic("");
    match FirstMatch(DeclPattern, n)
    case None => Err(NoStateDeclaration)
    case Some(d) =>
      DeclUnique(block, d);
      var state, curState := d[6], d[8];
      var lit := RegexLiteral(RegexEscape(state));
      PatternsDeterministic(lit);
      match FirstMatch(CallsPattern(lit), block)
      case None => Err(NoUpdateCalls)
      case Some(c) =>
        match FirstMatch(InputPattern, block)
        case None => Err(NoInputVariable)
        case Some(m) =>
          assert Fits(m[0], InputPattern[0]);
          assert Fits(d[6], DeclPattern[6]) && Fits(d[8], DeclPattern[8]);
          assert Fits(c[0], CallsPattern(lit)[0]) && Fits(c[2], CallsPattern(lit)[2]);
          Ok(VarMap(m[0], state, curState, c[0], c[2]))
  }

  /** The leftmost declaration of the normalized block has `state` and
      `curState` as its pieces 6 and 8. */
  ghost predicate DeclaresState(block: string, d: seq<string>)
  {
    First(DeclPattern, Normalize(block), d) && |d| == |DeclPattern|
  }

  /** The declaration is found but no update calls for its state. */
  ghost predicate DeclOnly(block: string)
  {
    exists d | DeclaresState(block, d) :: !HasShape(CallsPattern(d[6]), block)
  }

  /** The declaration is found and so are the update calls for its
      state. */
  ghost predicate DeclAndCalls(block: string)
  {
    exists d | DeclaresState(block, d) :: HasShape(CallsPattern(d[6]), block)
  }

  /** The roles of `v` are the captures of the three leftmost matches. */
  ghost predicate Resolves(block: string, v: VarMap)
  {
    && (exists d | DeclaresState(block, d) :: v.state == d[6] && v.curState == d[8])
    && (exists c | First(CallsPattern(v.state), block, c) && |c| == 4 ::
          v.updateText == c[0] && v.updateOffset == c[2])
    && (exists m | First(InputPattern, block, m) && |m| == 2 :: v.input == m[0])
  }

  /** The declaration the matcher found is the only leftmost one. */
  lemma DeclUnique(block: string, d: seq<string>)
    requires First(DeclPattern, Normalize(block), d)
    ensures DeclaresState(block, d)
    ensures forall d' | DeclaresState(block, d') :: d' == d
  {
    PatternsDeterministic("");
    forall d' | DeclaresState(block, d') ensures d' == d {
      FirstUnique(DeclPattern, Normalize(block), d, d');
    }
  }

  /** Every assignment the three leftmost matches determine is what
      `extractVariables` returns: the roles are resolved uniquely. */
  lemma ExtractComplete(block: string, v: VarMap)
    requires Resolves(block, v)
    ensures ExtractVariables(block) == Ok(v)
  {
    PatternsDeterministic(v.state);
    var d :| DeclaresState(block, d) && v.state == d[6] && v.curState == d[8];
    var c :| First(CallsPattern(v.state), block, c) && |c| == 4 && v.updateText == c[0] && v.updateOffset == c[2];
    var m :| First(InputPattern, block, m) && |m| == 2 && v.input == m[0];
    FirstHasShape(DeclPattern, Normalize(block), d);
    FirstHasShape(CallsPattern(v.state), block, c);
    FirstHasShape(InputPattern, block, m);
    DeclUnique(block, d);
    assert !DeclOnly(block);
    var r := ExtractVariables(block);
    assert r.Ok?;
    ResolvesUnique(block, v, r.value);
  }

  /** Two assignments that both resolve the block are the same. */
  lemma ResolvesUnique(block: string, v: VarMap, w: VarMap)
    requires Resolves(block, v) && Resolves(block, w)
    ensures v == w
  {
    PatternsDeterministic(v.state);
    var d :| DeclaresState(block, d) && v.state == d[6] && v.curState == d[8];
    var d' :| DeclaresState(block, d') && w.state == d'[6] && w.curState == d'[8];
    FirstUnique(DeclPattern, Normalize(block), d, d');
    var c :| First(CallsPattern(v.state), block, c) && |c| == 4 && v.updateText == c[0] && v.updateOffset == c[2];
    var c' :| First(CallsPattern(w.state), block, c') && |c'| == 4 && w.updateText == c'[0] && w.updateOffset == c'[2];
    FirstUnique(CallsPattern(v.state), block, c, c');
    var m :| First(InputPattern, block, m) && |m| == 2 && v.input == m[0];
    var m' :| First(InputPattern, block, m') && |m'| == 2 && w.input == m'[0];
    FirstUnique(InputPattern, block, m, m');
  }
}
