/** The text-mode pattern scanner of `src/utils/keyboard.ts`
    (`findBugBlock`): locate the first occurrence of the defect signature
    `.includes("<DEL>")`, walk back to the nearest `if(` and balance braces
    forward to find where that statement ends. */
module Scanner {
  import opened Results
  import opened Text

  /** The defect signature: `.includes("` + raw DEL + `")`. */
  const Signature: string := ".includes(\"" + [Del] + "\")"
  /** How far before the signature the opening `if(` may begin. */
  const Lookback: nat := 150
  /** How many characters from the `if(` the brace balancing looks at. */
  const Window: nat := 800

  datatype BugBlock = BugBlock(start: nat, end: nat, block: string)

  datatype ScanError =
    | PatternMissing     // the signature does not occur at all
    | NoEnclosingIf      // no `if(` within the lookback before it
    | UnbalancedBraces   // the window ends with a brace depth other than 0

  /** The change in brace depth caused by one character. */
  function Step(c: char): int
  {
    if c == '{' then 1 else if c == '}' then -1 else 0
  }

  /** The running brace depth after reading all of `w`: the number of `{`
      minus the number of `}`. */
  function Depth(w: string): int
  {
    if w == [] then 0 else Depth(w[..|w| - 1]) + Step(w[|w| - 1])
  }

  /** The `}` at index `i` brings the running depth back to 0. */
  predicate ClosesAt(w: string, i: nat)
    requires i < |w|
  {
    w[i] == '}' && Depth(w[..i + 1]) == 0
  }

  /** The first index at or after `i` whose `}` closes the block. */
  function FirstCloseFrom(w: string, i: nat): (r: Option<nat>)
    requires i <= |w|
    ensures r.Some? ==> i <= r.value < |w| && ClosesAt(w, r.value)
    ensures r.Some? ==> forall j | i <= j < r.value :: !ClosesAt(w, j)
    ensures r.None? ==> forall j | i <= j < |w| :: !ClosesAt(w, j)
    decreases |w| - i
  {
    if i == |w| then None
    else if ClosesAt(w, i) then Some(i)
    else FirstCloseFrom(w, i + 1)
  }

  /** The characters the brace balancing looks at: at most `Window` of
      them, starting at the `if(`. */
  function WindowAt(content: string, start: nat): (w: string)
    requires start <= |content|
    ensures |w| <= Window && start + |w| <= |content|
    ensures |w| == if start + Window < |content| then Window else |content| - start
    ensures w == content[start..start + |w|]
  {
    var stop := if start + Window < |content| then start + Window else |content|;
    content[start..stop]
  }

  /** The block that begins at the `if(` at `start`, for a signature at
      `idx`: up to the first `}` that closes it, or up to the signature
      when no `}` does and the window is balanced. */
  function BlockAt(content: string, start: nat, idx: nat): (r: Result<BugBlock, ScanError>)
    requires start < idx <= |content| && idx - start <= Lookback
    ensures r.Ok? ==> start == r.value.start < r.value.end <= |content|
    ensures r.Ok? ==> r.value.end - r.value.start <= Window
    ensures r.Ok? ==> r.value.block == content[r.value.start..r.value.end]
    ensures r.Err? ==> r.error == UnbalancedBraces
  {
    var w := WindowAt(content, start);
    match FirstCloseFrom(w, 0)
    case Some(i) => Ok(BugBlock(start, start + i + 1, content[start..start + i + 1]))
    case None =>
      if Depth(w) != 0 then Err(UnbalancedBraces)
      else Ok(BugBlock(start, idx, content[start..idx]))
  }

  /** The lowest index at which the `if(` may begin for a signature at
      `idx`. */
  function SearchStart(idx: nat): nat
  {
    if idx - Lookback > 0 then idx - Lookback else 0
  }

  /** What `findBugBlock(content)` returns or throws. */
  function BugBlockOf(content: string): (r: Result<BugBlock, ScanError>)
    ensures r.Ok? ==> 0 <= r.value.start < r.value.end <= |content|
    ensures r.Ok? ==> r.value.end - r.value.start <= Window
    ensures r.Ok? ==> r.value.block == content[r.value.start..r.value.end]
    ensures r == Err(PatternMissing) <==> !Contains(content, Signature)
  {
    var idx := IndexOf(content, Signature);
    if idx == -1 then Err(PatternMissing)
    else
      var start := LastIndexOf(content, "if(", idx);
      if start == -1 || start < SearchStart(idx) then Err(NoEnclosingIf)
      else
        // `if(` cannot begin where `.includes(` does, so the block is not empty
        assert start < idx by { assert content[idx] == '.'; assert OccursAt(content, "if(", start); }
        BlockAt(content, start, idx)
  }

  /** The scanner as the source runs it. */
  method FindBugBlock(content: string) returns (r: Result<BugBlock, ScanError>)
    ensures r == BugBlockOf(content)
  {
    var idx := IndexOf(content, Signature);
    if idx == -1 {
      return Err(PatternMissing);
    }
    var searchStart := SearchStart(idx);
    var blockStart := LastIndexOf(content, "if(", idx);
    if blockStart == -1 || blockStart < searchStart {
      return Err(NoEnclosingIf);
    }
    assert blockStart < idx by { assert content[idx] == '.'; assert OccursAt(content, "if(", blockStart); }
    assert BugBlockOf(content) == BlockAt(content, blockStart, idx);
    var slice := WindowAt(content, blockStart);
    var depth, close := BalanceBraces(slice);
    if depth != 0 {
      return Err(UnbalancedBraces);
    }
    var blockEnd := if close.Some? then blockStart + close.value + 1 else idx;
    r := Ok(BugBlock(blockStart, blockEnd, content[blockStart..blockEnd]));
  }

  /** The forward loop of `findBugBlock` over the window: it counts the
      depth and stops at the first `}` that returns it to 0. It reports
      that `}` and depth 0, or, when there is none, the final depth. */
  method BalanceBraces(slice: string) returns (depth: int, close: Option<nat>)
    ensures close == FirstCloseFrom(slice, 0)
    ensures close.Some? ==> depth == 0
    ensures close.None? ==> depth == Depth(slice)
  {
    depth := 0;
    var i := 0;
    while i < |slice|
      invariant 0 <= i <= |slice|
      invariant depth == Depth(slice[..i])
      invariant forall j | 0 <= j < i :: !ClosesAt(slice, j)
    {
      assert slice[..i + 1][..i] == slice[..i];
      if slice[i] == '{' {
        depth := depth + 1;
      } else if slice[i] == '}' {
        depth := depth - 1;
        if depth == 0 {
          FirstCloseIs(slice, 0, i);
          return 0, Some(i);
        }
      }
      i := i + 1;
    }
    assert slice[..i] == slice;
    FirstCloseIs(slice, 0, |slice|);
    close := None;
  }

  /** When no `}` before `i` closes the block, the search from `k` finds
      the one at `i`, or none when `i` is the end. */
  lemma {:induction false} FirstCloseIs(w: string, k: nat, i: nat)
    requires k <= i <= |w|
    requires forall j | k <= j < i :: !ClosesAt(w, j)
    requires i < |w| ==> ClosesAt(w, i)
    ensures FirstCloseFrom(w, k) == if i < |w| then Some(i) else None
    decreases i - k
  {
    if k < i {
      FirstCloseIs(w, k + 1, i);
    }
  }
}

module ScannerProperties {
  import opened Results
  import opened Text
  import opened Scanner

  /** `i` is the first occurrence of `p` in `s`. */
  predicate FirstOccurrence(s: string, p: string, i: int)
  {
    OccursAt(s, p, i) && forall j | 0 <= j < i :: !OccursAt(s, p, j)
  }

  /** Where the block starts: at the last `if(` that begins at or before
      the first signature, and only if that `if(` is at most `Lookback`
      characters before it. */
  lemma BugBlockStart(content: string, idx: int)
    requires FirstOccurrence(content, Signature, idx)
    ensures BugBlockOf(content).Ok? ==>
      var b := BugBlockOf(content).value;
      && OccursAt(content, "if(", b.start)
      && b.start < idx && idx - b.start <= Lookback
      && forall k | b.start < k <= idx :: !OccursAt(content, "if(", k)
    ensures BugBlockOf(content) == Err(NoEnclosingIf) <==>
      forall k | SearchStart(idx) <= k <= idx :: !OccursAt(content, "if(", k)
  {
    assert IndexOf(content, Signature) == idx;
    var start := LastIndexOf(content, "if(", idx);
    if start != -1 && start >= SearchStart(idx) {
      OccursAtHead(content, Signature, idx);
      assert OccursAt(content, "if(", start);
    }
  }

  /** Where the block ends: one past the first `}` in the window that
      brings the depth back to 0; failing that, at the signature when the
      window is balanced; otherwise the scan fails. */
  lemma BugBlockEnd(content: string, idx: int, start: int)
    requires FirstOccurrence(content, Signature, idx)
    requires start == LastIndexOf(content, "if(", idx) && start != -1 && start >= SearchStart(idx)
    ensures start < idx
    ensures
      var w := WindowAt(content, start);
      if exists i | 0 <= i < |w| :: ClosesAt(w, i) then
        && BugBlockOf(content).Ok?
        && var b := BugBlockOf(content).value;
        && b.start == start && b.end - 1 - start < |w|
        && ClosesAt(w, b.end - 1 - start)
        && forall j | 0 <= j < b.end - 1 - start :: !ClosesAt(w, j)
      else if Depth(w) == 0 then
        BugBlockOf(content) == Ok(BugBlock(start, idx, content[start..idx]))
      else
        BugBlockOf(content) == Err(UnbalancedBraces)
  {
    assert IndexOf(content, Signature) == idx;
    OccursAtHead(content, Signature, idx);
    assert OccursAt(content, "if(", start);
    assert BugBlockOf(content) == BlockAt(content, start, idx);
    var w := WindowAt(content, start);
    var fc := FirstCloseFrom(w, 0);
    if fc.Some? {
      assert BlockAt(content, start, idx) == Ok(BugBlock(start, start + fc.value + 1, content[start..start + fc.value + 1]));
    } else {
      assert forall i | 0 <= i < |w| :: !ClosesAt(w, i);
    }
  }

  /** A block may end before the signature: with no braces at all between
      the `if(` and the signature, the block stops right at the signature
      and does not contain it. */
  lemma BlockWithoutBraces()
    ensures BugBlockOf("if(x" + Signature) == Ok(BugBlock(0, 4, "if(x"))
    ensures !Contains("if(x", Signature)
  {
    var c := "if(x" + Signature;
    assert |c| == 18;
    assert c[0] == 'i' && c[1] == 'f' && c[2] == '(' && c[3] == 'x';
    assert OccursAt(c, Signature, 4);
    forall j | 0 <= j < 4 ensures !OccursAt(c, Signature, j) {
      if OccursAt(c, Signature, j) { OccursAtHead(c, Signature, j); }
    }
    assert IndexOf(c, Signature) == 4;
    assert OccursAt(c, "if(", 0);
    forall j | 1 <= j <= 4 ensures !OccursAt(c, "if(", j) {
      if OccursAt(c, "if(", j) { OccursAtHead(c, "if(", j); }
    }
    assert LastIndexOf(c, "if(", 4) == 0;
    var w := WindowAt(c, 0);
    assert w == c;
    NoBraces(c);
    assert BlockAt(c, 0, 4) == Ok(BugBlock(0, 4, c[0..4]));
    assert c[0..4] == "if(x";
  }

  /** The example's characters hold no brace, so its depth stays 0 and no
      `}` closes anything. */
  lemma NoBraces(c: string)
    requires c == "if(x" + Signature
    ensures Depth(c) == 0 && FirstCloseFrom(c, 0).None?
  {
    forall j | 0 <= j < |c| ensures c[j] != '{' && c[j] != '}' {
      assert c[j] in "if(x.includes(\"" + [Del] + "\")";
    }
    NoBraceDepth(c, |c|);
    assert c[..|c|] == c;
  }

  lemma NoBraceDepth(w: string, k: nat)
    requires k <= |w|
    requires forall j | 0 <= j < |w| :: w[j] != '{' && w[j] != '}'
    ensures Depth(w[..k]) == 0
  {
    if k > 0 {
      assert w[..k][..k - 1] == w[..k - 1];
      NoBraceDepth(w, k - 1);
    }
  }
}
