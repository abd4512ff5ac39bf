/** The JavaScript string operations the patch engine relies on
    (`indexOf`, `lastIndexOf`, `includes`, `startsWith`) and the character
    classes `\w` and `[\w$]` of its regular expressions. Strings are
    sequences of Unicode scalar values. */
module Text {
  import opened Results

  /** The raw DEL character, U+007F. */
  const Del: char := '\U{7F}'

  /** `p` occurs in `s` at index `i`. */
  predicate OccursAt(s: string, p: string, i: int)
  {
    0 <= i && i + |p| <= |s| && s[i..i + |p|] == p
  }

  /** `s.includes(p)` */
  predicate Contains(s: string, p: string)
  {
    exists i | 0 <= i <= |s| :: OccursAt(s, p, i)
  }

  /** `s.startsWith(p)` */
  predicate StartsWith(s: string, p: string)
  {
    |p| <= |s| && s[..|p|] == p
  }

  /** `s.indexOf(p, from)`: the first occurrence at or after `from`, or -1. */
  function IndexOfFrom(s: string, p: string, from: nat): (r: int)
    ensures r == -1 || (from <= r && OccursAt(s, p, r))
    ensures forall i | from <= i && (r == -1 || i < r) :: !OccursAt(s, p, i)
    decreases |s| - from
  {
    if from + |p| > |s| then -1
    else if s[from..from + |p|] == p then from
    else IndexOfFrom(s, p, from + 1)
  }

  /** `s.indexOf(p)` */
  function IndexOf(s: string, p: string): (r: int)
    ensures r == -1 || OccursAt(s, p, r)
    ensures forall i | 0 <= i && (r == -1 || i < r) :: !OccursAt(s, p, i)
    ensures r != -1 <==> Contains(s, p)
  {
    IndexOfFrom(s, p, 0)
  }

  /** `s.lastIndexOf(p, from)`: the last occurrence that begins at or before
      `from`, or -1. */
  function LastIndexOf(s: string, p: string, from: int): (r: int)
    ensures r == -1 || (r <= from && OccursAt(s, p, r))
    ensures forall i | r < i <= from :: !OccursAt(s, p, i)
    decreases from
  {
    if from < 0 then -1
    else if OccursAt(s, p, from) then from
    else LastIndexOf(s, p, from - 1)
  }

  /** `\w`: ASCII letters, digits and the underscore. */
  predicate IsWordChar(c: char)
  {
    'a' <= c <= 'z' || 'A' <= c <= 'Z' || '0' <= c <= '9' || c == '_'
  }

  /** `[\w$]`: the characters of a JavaScript identifier as the extractor
      reads them. */
  predicate IsIdentChar(c: char)
  {
    IsWordChar(c) || c == '$'
  }

  /** One of the two classes, chosen by `dollar`. */
  predicate InClass(c: char, dollar: bool)
  {
    if dollar then IsIdentChar(c) else IsWordChar(c)
  }

  /** A non-empty `[\w$]+` name. */
  predicate IsIdentifier(s: string)
  {
    |s| > 0 && forall i | 0 <= i < |s| :: IsIdentChar(s[i])
  }

  /** A non-empty `\w+` name. */
  predicate IsWord(s: string)
  {
    |s| > 0 && forall i | 0 <= i < |s| :: IsWordChar(s[i])
  }

  /** Where a greedy `[\w$]+` (or `\w+`) starting at `i` stops: the end of
      the longest run of class characters from `i`. */
  function RunEnd(s: string, i: nat, dollar: bool): (j: nat)
    requires i <= |s|
    ensures i <= j <= |s|
    ensures forall k | i <= k < j :: InClass(s[k], dollar)
    ensures j == |s| || !InClass(s[j], dollar)
    decreases |s| - i
  {
    if i == |s| || !InClass(s[i], dollar) then i else RunEnd(s, i + 1, dollar)
  }

  /** The name a greedy `[\w$]+` (`dollar`) or `\w+` matches at `i`: the
      longest run of class characters there, if it is not empty. */
  function NameAt(s: string, i: nat, dollar: bool): (r: Option<string>)
    requires i <= |s|
    ensures r.Some? ==> OccursAt(s, r.value, i) && |r.value| > 0
    ensures r.Some? ==> forall k | 0 <= k < |r.value| :: InClass(r.value[k], dollar)
    ensures r.Some? ==> i + |r.value| == |s| || !InClass(s[i + |r.value|], dollar)
    ensures r.None? ==> i == |s| || !InClass(s[i], dollar)
  {
    var e := RunEnd(s, i, dollar);
    if e == i then None else Some(s[i..e])
  }

  /** A name occurring at `i` and followed by a character outside its
      class (or by the end) is what the greedy class matches there. */
  lemma NameAtUnique(s: string, i: nat, x: string, dollar: bool)
    requires OccursAt(s, x, i) && |x| > 0
    requires forall k | 0 <= k < |x| :: InClass(x[k], dollar)
    requires i + |x| == |s| || !InClass(s[i + |x|], dollar)
    ensures NameAt(s, i, dollar) == Some(x)
  {
    assert forall k | i <= k < i + |x| :: s[k] == x[k - i];
    RunEndUnique(s, i, i + |x|, dollar);
  }

  /** A run is determined by where it starts: any span of class characters
      followed by a non-class character (or the end) is the greedy run. */
  lemma RunEndUnique(s: string, i: nat, j: nat, dollar: bool)
    requires i <= j <= |s|
    requires forall k | i <= k < j :: InClass(s[k], dollar)
    requires j == |s| || !InClass(s[j], dollar)
    ensures RunEnd(s, i, dollar) == j
  {
  }

  /** An occurrence begins with the pattern's first character. */
  lemma OccursAtHead(s: string, p: string, i: int)
    requires OccursAt(s, p, i) && |p| > 0
    ensures s[i] == p[0]
  {
    assert s[i..i + |p|][0] == s[i];
  }

  /** An occurrence of `p + q` is an occurrence of `p` followed directly by
      one of `q`. */
  lemma OccursAtPrefix(s: string, p: string, q: string, i: int)
    requires OccursAt(s, p + q, i)
    ensures OccursAt(s, p, i) && OccursAt(s, q, i + |p|)
  {
    assert s[i..i + |p|] == (p + q)[..|p|];
    assert s[i + |p|..i + |p| + |q|] == (p + q)[|p|..];
  }

  /** Two adjacent occurrences form an occurrence of the concatenation. */
  lemma OccursAtConcat(s: string, p: string, q: string, i: int)
    requires OccursAt(s, p, i) && OccursAt(s, q, i + |p|)
    ensures OccursAt(s, p + q, i)
  {
    assert s[i..i + |p| + |q|] == s[i..i + |p|] + s[i + |p|..i + |p| + |q|];
  }

  /** Containment is preserved by embedding in a larger string. */
  lemma ContainsConcat(a: string, p: string, b: string, q: string)
    requires Contains(p, q)
    ensures Contains(a + p + b, q)
  {
    var i :| 0 <= i <= |p| && OccursAt(p, q, i);
    assert (a + p + b)[|a| + i..|a| + i + |q|] == p[i..i + |q|];
    assert OccursAt(a + p + b, q, |a| + i);
  }

  /** A part of a concatenation is contained in it. */
  lemma ContainsPart(a: string, p: string, b: string)
    ensures Contains(a + p + b, p)
  {
    assert (a + p + b)[|a|..|a| + |p|] == p;
    assert OccursAt(a + p + b, p, |a|);
  }

  /** Containment is transitive. */
  lemma ContainsTrans(s: string, p: string, q: string)
    requires Contains(s, p) && Contains(p, q)
    ensures Contains(s, q)
  {
    var i :| 0 <= i <= |s| && OccursAt(s, p, i);
    var j :| 0 <= j <= |p| && OccursAt(p, q, j);
    forall k | 0 <= k < |q| ensures s[i + j + k] == q[k] {
      assert p[j + k] == q[k];
      assert s[i + (j + k)] == p[j + k];
    }
    assert s[i + j..i + j + |q|] == q;
    assert OccursAt(s, q, i + j);
  }
}
