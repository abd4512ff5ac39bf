/** The small helpers of `src/utils/helpers.ts`: `plural`, `printSummary`,
    `maxKeyLength` and the unknown-target check of `validateTargets`.
    Console output is the sequence of lines logged; `process.exit` is a
    verdict. */
module Helpers {
  import opened Results
  import opened Text

  // ---------------------------------------------------------------------
  // Numbers as text

  /** The decimal digits of `n`, without leading zeros. */
  function NatToString(n: nat): (r: string)
    ensures |r| > 0 && forall i | 0 <= i < |r| :: '0' <= r[i] <= '9'
    ensures |r| > 1 ==> r[0] != '0'
    decreases n
  {
    if n < 10 then [Digit(n)] else NatToString(n / 10) + [Digit(n % 10)]
  }

  function Digit(d: nat): (c: char)
    requires d < 10
    ensures '0' <= c <= '9' && (c as int) - ('0' as int) == d
  {
    ('0' as int + d) as char
  }

  /** `${n}` for an integer `n`: a minus sign before the digits of a
      negative number. */
  function IntToString(n: int): (r: string)
    ensures |r| > 0
    ensures n < 0 <==> r[0] == '-'
  {
    if n < 0 then "-" + NatToString(-n) else NatToString(n)
  }

  /** The value of a string of decimal digits. */
  function DigitsValue(s: string): nat
    requires forall i | 0 <= i < |s| :: '0' <= s[i] <= '9'
    decreases |s|
  {
    if s == [] then 0 else 10 * DigitsValue(s[..|s| - 1]) + ((s[|s| - 1] as int) - ('0' as int))
  }

  /** The value of an optionally signed decimal numeral. */
  function ParseInt(s: string): int
    requires |s| > 0 && forall i | 1 <= i < |s| :: '0' <= s[i] <= '9'
    requires s[0] == '-' || '0' <= s[0] <= '9'
  {
    if s[0] == '-' then 0 - (DigitsValue(s[1..]) as int) else DigitsValue(s)
  }

  /** The digits read back give the number. */
  lemma {:induction false} NatToStringRoundTrip(n: nat)
    ensures DigitsValue(NatToString(n)) == n
    decreases n
  {
    if n >= 10 {
      var r := NatToString(n);
      NatToStringRoundTrip(n / 10);
      assert r[..|r| - 1] == NatToString(n / 10);
    }
  }

  /** The numeral read back gives the number. */
  lemma IntToStringRoundTrip(n: int)
    ensures ParseInt(IntToString(n)) == n
  {
    var r := IntToString(n);
    if n < 0 {
      NatToStringRoundTrip(-n);
      assert r[1..] == NatToString(-n);
    } else {
      NatToStringRoundTrip(n);
    }
  }

  // ---------------------------------------------------------------------
  // plural

  /** `plural(count, singular, suffix = 's')`: the count, a space, and the
      word, with the suffix only for counts above one. */
  function Plural(count: int, singular: string, suffix: string := "s"): (r: string)
    ensures var num := IntToString(count);
      && |r| > |num| && r[..|num|] == num && r[|num|] == ' '
      && r[|num| + 1..] == singular + (if count > 1 then suffix else "")
  {
    var num := IntToString(count);
    var r := num + " " + singular + (if count > 1 then suffix else "");
    assert r[|num| + 1..] == singular + (if count > 1 then suffix else "");
    r
  }

  /** The count `plural` reports parses back to the count, and the word
      takes the suffix exactly when the count is above one. */
  lemma PluralReportsCount(count: int, singular: string, suffix: string)
    ensures var r, num := Plural(count, singular, suffix), IntToString(count);
      && ParseInt(r[..|num|]) == count
      && (count > 1 ==> r[|num| + 1..] == singular + suffix)
      && (count <= 1 ==> r[|num| + 1..] == singular)
  {
    IntToStringRoundTrip(count);
  }

  /** The default suffix is `s`. */
  lemma PluralDefault(count: int, singular: string)
    ensures Plural(count, singular) == Plural(count, singular, "s")
    ensures Plural(2, "skill") == "2 skills" && Plural(1, "skill") == "1 skill"
  {
    assert IntToString(2) == "2" && IntToString(1) == "1";
  }

  // ---------------------------------------------------------------------
  // printSummary

  datatype Action = Installed | Removed

  function ActionName(a: Action): string
  {
    match a
    case Installed => "Installed"
    case Removed => "Removed"
  }

  /** `  ✓ <action> <plural(ok, noun)>` */
  function SuccessLine(ok: int, noun: string, action: Action): string
  {
    "  \U{2713} " + ActionName(action) + " " + Plural(ok, noun)
  }

  /** `  ✗ Failed: <fail>` */
  function FailureLine(fail: int): string
  {
    "  \U{2717} Failed: " + IntToString(fail)
  }

  /** The reminder to restart, with the verb the action calls for. */
  function RestartLine(action: Action): string
  {
    "\n  Restart Claude Code to " + (if action == Installed then "activate" else "apply") + ".\n"
  }

  /** The lines `printSummary(ok, fail, noun, action)` logs: an empty
      line, then the success line when something succeeded, the failure
      line when something failed, and the restart reminder when something
      succeeded. */
  function PrintSummary(ok: int, fail: int, noun: string, action: Action): (lines: seq<string>)
    ensures |lines| == 1 + (if ok > 0 then 2 else 0) + (if fail > 0 then 1 else 0)
    ensures lines[0] == ""
    ensures SuccessLine(ok, noun, action) in lines <==> ok > 0
    ensures FailureLine(fail) in lines <==> fail > 0
    ensures RestartLine(action) in lines <==> ok > 0
    ensures ok > 0 ==> lines[1] == SuccessLine(ok, noun, action) && lines[|lines| - 1] == RestartLine(action)
    ensures fail > 0 ==> lines[if ok > 0 then 2 else 1] == FailureLine(fail)
  {
    LinesDiffer(ok, fail, noun, action);
    [""]
    + (if ok > 0 then [SuccessLine(ok, noun, action)] else [])
    + (if fail > 0 then [FailureLine(fail)] else [])
    + (if ok > 0 then [RestartLine(action)] else [])
  }

  /** The four kinds of line (blank, success, failure, restart) are
      pairwise distinct. */
  lemma LinesDiffer(ok: int, fail: int, noun: string, action: Action)
    ensures SuccessLine(ok, noun, action) != FailureLine(fail)
    ensures SuccessLine(ok, noun, action) != RestartLine(action)
    ensures FailureLine(fail) != RestartLine(action)
    ensures "" != SuccessLine(ok, noun, action) && "" != FailureLine(fail) && "" != RestartLine(action)
  {
    assert SuccessLine(ok, noun, action)[2] == '\U{2713}';
    assert FailureLine(fail)[2] == '\U{2717}';
    assert RestartLine(action)[0] == '\n';
  }

  /** The reminder says "activate" after an install and "apply" after a
      removal. */
  lemma RestartVerb()
    ensures Contains(RestartLine(Installed), "activate")
    ensures Contains(RestartLine(Removed), "apply")
    ensures RestartLine(Installed) != RestartLine(Removed)
  {
    assert OccursAt(RestartLine(Installed), "activate", 26);
    assert OccursAt(RestartLine(Removed), "apply", 26);
    assert RestartLine(Installed)[27] != RestartLine(Removed)[27];
  }

  // ---------------------------------------------------------------------
  // maxKeyLength

  /** The number of UTF-16 code units of one character. */
  function CodeUnits(c: char): nat
  {
    if c as int > 0xFFFF then 2 else 1
  }

  /** A JavaScript string's `length`: UTF-16 code units. */
  function Utf16Length(s: string): (n: nat)
    ensures |s| <= n <= 2 * |s|
    ensures (forall i | 0 <= i < |s| :: s[i] as int <= 0xFFFF) ==> n == |s|
    decreases |s|
  {
    if s == [] then 0 else Utf16Length(s[..|s| - 1]) + CodeUnits(s[|s| - 1])
  }

  /** `maxBy(keys, k => k.length)`: the position of the first key whose
      length no other key exceeds. */
  function LongestIndex(keys: seq<string>): (k: nat)
    requires |keys| > 0
    ensures k < |keys|
    ensures forall j | 0 <= j < |keys| :: Utf16Length(keys[j]) <= Utf16Length(keys[k])
    ensures forall j | 0 <= j < k :: Utf16Length(keys[j]) < Utf16Length(keys[k])
    decreases |keys|
  {
    if |keys| == 1 then 0
    else
      var k := LongestIndex(keys[..|keys| - 1]);
      if Utf16Length(keys[|keys| - 1]) > Utf16Length(keys[k]) then |keys| - 1 else k
  }

  /** `maxKeyLength` as the padding with `padEnd` needs it: the largest
      UTF-16 length of any key, and 0 for an empty registry. */
  function MaxKeyLength(keys: seq<string>): (n: nat)
    ensures keys == [] ==> n == 0
    ensures forall j | 0 <= j < |keys| :: Utf16Length(keys[j]) <= n
    ensures keys != [] ==> exists j | 0 <= j < |keys| :: Utf16Length(keys[j]) == n
  {
    if keys == [] then 0 else Utf16Length(keys[LongestIndex(keys)])
  }

  /** `maxKeyLength` as written: the longest key is chosen by its UTF-16
      length, but its `size` is then taken, which counts code points. The
      result is the code-point length of some key and never exceeds the
      padding the keys need. */
  function MaxKeyLengthAsWritten(keys: seq<string>): (n: nat)
    ensures keys == [] ==> n == 0
    ensures keys != [] ==> exists j | 0 <= j < |keys| :: |keys[j]| == n
    ensures n <= MaxKeyLength(keys)
  {
    if keys == [] then 0 else |keys[LongestIndex(keys)]|
  }

  /** Keys made of characters of the Basic Multilingual Plane get the same
      answer from both. */
  lemma MaxKeyLengthBmp(keys: seq<string>)
    requires forall j, i | 0 <= j < |keys| && 0 <= i < |keys[j]| :: keys[j][i] as int <= 0xFFFF
    ensures MaxKeyLengthAsWritten(keys) == MaxKeyLength(keys)
  {
    if keys != [] {
      var k := LongestIndex(keys);
      assert forall i | 0 <= i < |keys[k]| :: keys[k][i] as int <= 0xFFFF;
    }
  }

  /** Two emoji outmeasure three letters in UTF-16, so they are chosen, and
      then counted as two: the result is shorter than both keys. */
  lemma MaxKeyLengthAstral()
    ensures var keys := ["\U{1F600}\U{1F600}", "abc"];
      && MaxKeyLengthAsWritten(keys) == 2
      && MaxKeyLength(keys) == 4
      && MaxKeyLengthAsWritten(keys) < Utf16Length(keys[1])
  {
    var keys := ["\U{1F600}\U{1F600}", "abc"];
    assert Utf16Length(keys[0]) == 4 by {
      assert keys[0][..1] == "\U{1F600}";
      assert keys[0][..1][..0] == [];
    }
    assert Utf16Length(keys[1]) == 3;
    assert LongestIndex(keys[..1]) == 0;
    assert LongestIndex(keys) == 0;
  }

  // ---------------------------------------------------------------------
  // validateTargets

  /** The properties every plain object inherits from `Object.prototype`;
      `registry[name]` yields a function (or the prototype) for them,
      which is truthy. */
  const PrototypeNames: set<string> := {
    "constructor", "__defineGetter__", "__defineSetter__", "hasOwnProperty",
    "__lookupGetter__", "__lookupSetter__", "isPrototypeOf",
    "propertyIsEnumerable", "toString", "valueOf", "__proto__",
    "toLocaleString"
  }

  /** Whether `registry[t]` is truthy: an own entry's truthiness, otherwise
      whether an inherited property answers. */
  predicate LooksUp<V>(registry: map<string, V>, truthy: V -> bool, t: string)
  {
    if t in registry then truthy(registry[t]) else t in PrototypeNames
  }

  /** `targets.filter(t => !registry[t])` as written. */
  function UnknownAsWritten<V>(targets: seq<string>, registry: map<string, V>, truthy: V -> bool): (r: seq<string>)
    ensures forall t :: t in r <==> t in targets && !LooksUp(registry, truthy, t)
    decreases |targets|
  {
    if targets == [] then []
    else
      var rest := UnknownAsWritten(targets[..|targets| - 1], registry, truthy);
      var t := targets[|targets| - 1];
      assert targets == targets[..|targets| - 1] + [t];
      if LooksUp(registry, truthy, t) then rest else rest + [t]
  }

  /** The targets that name no entry of the registry, in the order given. */
  function Unknown<V>(targets: seq<string>, registry: map<string, V>): (r: seq<string>)
    ensures |r| <= |targets|
    decreases |targets|
  {
    if targets == [] then []
    else
      var rest := Unknown(targets[..|targets| - 1], registry);
      if targets[|targets| - 1] in registry then rest else rest + [targets[|targets| - 1]]
  }

  /** The unknown targets are exactly those without an entry, each kept as
      often as it was given. */
  lemma {:induction false} UnknownMembers<V>(targets: seq<string>, registry: map<string, V>)
    ensures forall t :: t in Unknown(targets, registry) <==> t in targets && t !in registry
    ensures forall t :: multiset(Unknown(targets, registry))[t] == if t in registry then 0 else multiset(targets)[t]
    decreases |targets|
  {
    if targets != [] {
      var init, t := targets[..|targets| - 1], targets[|targets| - 1];
      UnknownMembers(init, registry);
      assert targets == init + [t];
    }
  }

  /** Filtering a concatenation filters each part: the unknown targets keep
      the order they were given in. */
  lemma {:induction false} UnknownAppend<V>(a: seq<string>, b: seq<string>, registry: map<string, V>)
    ensures Unknown(a + b, registry) == Unknown(a, registry) + Unknown(b, registry)
    decreases |b|
  {
    if b != [] {
      var init, t := b[..|b| - 1], b[|b| - 1];
      var ab := a + b;
      UnknownAppend(a, init, registry);
      assert ab[..|ab| - 1] == a + init && ab[|ab| - 1] == t;
      var last := if t in registry then [] else [t];
      assert Unknown(ab, registry) == Unknown(a + init, registry) + last;
      assert Unknown(b, registry) == Unknown(init, registry) + last;
    } else {
      assert a + b == a;
    }
  }

  /** When no target names an inherited property and every entry is
      truthy, the check as written and the own-entry check agree. */
  lemma {:induction false} UnknownAgrees<V>(targets: seq<string>, registry: map<string, V>, truthy: V -> bool)
    requires forall t | t in targets :: t !in PrototypeNames
    requires forall t | t in registry :: truthy(registry[t])
    ensures UnknownAsWritten(targets, registry, truthy) == Unknown(targets, registry)
    decreases |targets|
  {
    if targets != [] {
      UnknownAgrees(targets[..|targets| - 1], registry, truthy);
    }
  }

  /** `toString` is no registered target, yet the check as written lets it
      through. */
  lemma UnknownInherited(truthy: bool -> bool)
    ensures var none: map<string, bool> := map[];
      && UnknownAsWritten(["toString"], none, truthy) == []
      && Unknown(["toString"], none) == ["toString"]
  {
    assert "toString" in PrototypeNames;
    assert ["toString"][..0] == [];
  }

  /** `parts.join(sep)` */
  function Join(parts: seq<string>, sep: string): (r: string)
    ensures |parts| == 1 ==> r == parts[0]
    decreases |parts|
  {
    if parts == [] then ""
    else if |parts| == 1 then parts[0]
    else Join(parts[..|parts| - 1], sep) + sep + parts[|parts| - 1]
  }

  /** Every part appears in the joined text. */
  lemma {:induction false} JoinContains(parts: seq<string>, sep: string, i: nat)
    requires i < |parts|
    ensures Contains(Join(parts, sep), parts[i])
    decreases |parts|
  {
    var p := parts[i];
    assert OccursAt(p, p, 0);
    if |parts| > 1 {
      var init := parts[..|parts| - 1];
      if i == |parts| - 1 {
        ContainsConcat(Join(init, sep) + sep, p, "", p);
        assert Join(init, sep) + sep + p + "" == Join(parts, sep);
      } else {
        JoinContains(init, sep, i);
        ContainsConcat("", Join(init, sep), sep + parts[|parts| - 1], p);
        assert "" + Join(init, sep) + (sep + parts[|parts| - 1]) == Join(parts, sep);
      }
    }
  }

  /** `validateTargets` either accepts or ends the process with an exit
      code and the lines written to stderr. */
  datatype Verdict = Accepted | Exit(code: int, stderr: seq<string>)

  /** `validateTargets(targets, registry, errorNoun, helpCmd)`, with
      registry membership by own entry. */
  function ValidateTargets<V>(targets: seq<string>, registry: map<string, V>, errorNoun: string, helpCmd: string): (v: Verdict)
    ensures v.Accepted? <==> forall t | t in targets :: t in registry
    ensures v.Exit? ==> v.code == 1 && |v.stderr| == 2
    ensures v.Exit? ==> forall t | t in targets && t !in registry :: Contains(v.stderr[0], t)
    ensures v.Exit? ==> Contains(v.stderr[1], helpCmd) && Contains(v.stderr[1], errorNoun)
  {
    var unknown := Unknown(targets, registry);
    UnknownMembers(targets, registry);
    if unknown == [] then Accepted
    else
      var first := "\n\U{2717} Unknown " + errorNoun + ": " + Join(unknown, ", ");
      var second := "  Run '" + helpCmd + "' to see available " + errorNoun + ".\n";
      StderrNames(unknown, errorNoun, helpCmd);
      Exit(1, [first, second])
  }

  lemma StderrNames(unknown: seq<string>, errorNoun: string, helpCmd: string)
    ensures var first := "\n\U{2717} Unknown " + errorNoun + ": " + Join(unknown, ", ");
      forall t | t in unknown :: Contains(first, t)
    ensures var second := "  Run '" + helpCmd + "' to see available " + errorNoun + ".\n";
      Contains(second, helpCmd) && Contains(second, errorNoun)
  {
    var head := "\n\U{2717} Unknown " + errorNoun + ": ";
    forall t | t in unknown ensures Contains(head + Join(unknown, ", "), t) {
      var i :| 0 <= i < |unknown| && unknown[i] == t;
      JoinContains(unknown, ", ", i);
      ContainsConcat(head, Join(unknown, ", "), "", t);
      assert head + Join(unknown, ", ") + "" == head + Join(unknown, ", ");
    }
    assert OccursAt(helpCmd, helpCmd, 0) && OccursAt(errorNoun, errorNoun, 0);
    var second := "  Run '" + helpCmd + "' to see available " + errorNoun + ".\n";
    ContainsConcat("  Run '", helpCmd, "' to see available " + errorNoun + ".\n", helpCmd);
    assert "  Run '" + helpCmd + ("' to see available " + errorNoun + ".\n") == second;
    ContainsConcat("  Run '" + helpCmd + "' to see available ", errorNoun, ".\n", errorNoun);
  }
}
