/** The replacement block of `src/utils/keyboard.ts` (`generateFix`): a
    fixed template over the five extracted names, opened by the marker
    that makes patching idempotent. */
module Synthesizer {
  import opened Text
  import opened Extractor

  /** `PATCH_MARKER`: its presence means a file is already patched. */
  const Marker: string := "/* Vietnamese IME fix */"

  /** The guard the fix opens with: the input holds an escaped DEL. */
  function Opening(input: string): string
  {
    "if(" + input + ".includes(\"\\x7f\")){"
  }

  /** The call that passes the rebuilt text to the text callback. */
  function TextCall(updateText: string, state: string): string
  {
    updateText + "(" + state + ".text);"
  }

  /** The call that passes the rebuilt cursor to the offset callback. */
  function OffsetCall(updateOffset: string, state: string): string
  {
    updateOffset + "(" + state + ".offset)"
  }

  /** The replay: count the escaped DELs, drop them, and rebuild the
      state by that many backspaces followed by the remaining input. */
  function Replay(v: VarMap): string
  {
    Counts(v.input) + StateCopy(v) + Steps(v.state)
  }

  /** The count of escaped DELs and the input without them. */
  function Counts(input: string): string
  {
    "let _n=(" + input + ".match(/\\x7f/g)||[]).length," +
    "_vn=" + input + ".replace(/\\x7f/g,\"\"),"
  }

  /** The copy of the current state the replay starts from. */
  function StateCopy(v: VarMap): string
  {
    v.state + "=" + v.curState + ";"
  }

  /** The backspaces, then the insertions of the remaining input. */
  function Steps(state: string): string
  {
    "for(let _i=0;_i<_n;_i++)" + state + "=" + state + ".backspace();" +
    "for(const _c of _vn)" + state + "=" + state + ".insert(_c);"
  }

  /** The test that the rebuilt state differs from the current one. */
  function Guard(v: VarMap): string
  {
    "if(!" + v.curState + ".equals(" + v.state + ")){" +
    "if(" + v.curState + ".text!==" + v.state + ".text)"
  }

  /** `generateFix(vars)`: the marker, a guard on the input, a replay of
      the backspaces and insertions on a copy of the state, and the two
      callbacks when the text changed. */
  function GenerateFix(v: VarMap): (r: string)
    ensures StartsWith(r, Marker + Opening(v.input))
    ensures Contains(r, Marker)
    ensures OccursAt(r, "}return;}", |r| - 9)
    ensures Contains(r, TextCall(v.updateText, v.state))
    ensures Contains(r, OffsetCall(v.updateOffset, v.state))
    ensures Contains(r, Replay(v)) && Contains(r, Guard(v))
    ensures
      var i := |Marker + Opening(v.input)|;
      && OccursAt(r, Replay(v), i)
      && OccursAt(r, Guard(v), i + |Replay(v)|)
      && OccursAt(r, TextCall(v.updateText, v.state), i + |Replay(v)| + |Guard(v)|)
      && OccursAt(r, OffsetCall(v.updateOffset, v.state),
                  i + |Replay(v)| + |Guard(v)| + |TextCall(v.updateText, v.state)|)
    ensures Contains(r, StateCopy(v))
    ensures WellFormed(v) ==> Del !in r
  {
    var r := Marker + Opening(v.input) + Replay(v) + Guard(v) +
      TextCall(v.updateText, v.state) + OffsetCall(v.updateOffset, v.state) + "}return;}";
    FixFacts(Marker + Opening(v.input), Replay(v), Guard(v),
      TextCall(v.updateText, v.state), OffsetCall(v.updateOffset, v.state), Marker);
    ContainsPart(Counts(v.input), StateCopy(v), Steps(v.state));
    ContainsTrans(r, Replay(v), StateCopy(v));
    PartsNoDel(v);
    r
  }

  /** With well-formed names no part of the template holds a raw DEL. */
  lemma PartsNoDel(v: VarMap)
    ensures WellFormed(v) ==>
      && Del !in Marker && Del !in Opening(v.input) && Del !in Replay(v) && Del !in Guard(v)
      && Del !in TextCall(v.updateText, v.state) && Del !in OffsetCall(v.updateOffset, v.state)
  {
    if WellFormed(v) {
      IdentifierNoDel(v.input);
      IdentifierNoDel(v.state);
      IdentifierNoDel(v.curState);
      IdentifierNoDel(v.updateText);
      IdentifierNoDel(v.updateOffset);
      ReplayNoDel(v);
      GuardNoDel(v);
    }
  }

  lemma ReplayNoDel(v: VarMap)
    requires Del !in v.input && Del !in v.state && Del !in v.curState
    ensures Del !in Replay(v)
  {
    CountsNoDel(v.input);
    StepsNoDel(v.state);
  }

  lemma CountsNoDel(input: string)
    requires Del !in input
    ensures Del !in Counts(input)
  {
  }

  lemma StepsNoDel(state: string)
    requires Del !in state
    ensures Del !in Steps(state)
  {
  }

  lemma GuardNoDel(v: VarMap)
    requires Del !in v.state && Del !in v.curState
    ensures Del !in Guard(v)
  {
  }

  /** Where each part of the template lies in the assembled fix. */
  lemma FixFacts(a: string, rep: string, g: string, t: string, o: string, m: string)
    requires StartsWith(a, m)
    ensures StartsWith(a + rep + g + t + o + "}return;}", a)
    ensures Contains(a + rep + g + t + o + "}return;}", m)
    ensures OccursAt(a + rep + g + t + o + "}return;}", "}return;}", |a + rep + g + t + o + "}return;}"| - 9)
    ensures Contains(a + rep + g + t + o + "}return;}", rep)
    ensures Contains(a + rep + g + t + o + "}return;}", g)
    ensures Contains(a + rep + g + t + o + "}return;}", t)
    ensures Contains(a + rep + g + t + o + "}return;}", o)
    ensures OccursAt(a + rep + g + t + o + "}return;}", rep, |a|)
    ensures OccursAt(a + rep + g + t + o + "}return;}", g, |a| + |rep|)
    ensures OccursAt(a + rep + g + t + o + "}return;}", t, |a| + |rep| + |g|)
    ensures OccursAt(a + rep + g + t + o + "}return;}", o, |a| + |rep| + |g| + |t|)
  {
    var r := a + rep + g + t + o + "}return;}";
    assert r[..|a|] == a;
    assert r[..|m|] == a[..|m|];
    assert OccursAt(r, m, 0);
    assert r[|r| - 9..] == "}return;}";
    assert OccursAt(r, rep, |a|) by { assert r[|a|..|a| + |rep|] == rep; }
    var i := |a| + |rep|;
    assert OccursAt(r, g, i) by { assert r[i..i + |g|] == g; }
    i := i + |g|;
    assert OccursAt(r, t, i) by { assert r[i..i + |t|] == t; }
    i := i + |t|;
    assert OccursAt(r, o, i) by { assert r[i..i + |o|] == o; }
  }

  lemma IdentifierNoDel(s: string)
    ensures IsIdentifier(s) ==> Del !in s
  {
  }
}
