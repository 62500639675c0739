/** Cutting a list of commands at its separators: `argsep`, called with `;` and `,`. */
module CommandList {
  import opened Options
  import W = WorkspaceCommand
  import L = IpcLines

  datatype Quoting = Quoting(inString: bool, inChar: bool, escaped: bool)

  const CLEAR := Quoting(false, false, false)

  predicate IsSeparator(c: char) {
    c == ';' || c == ','
  }

  predicate IsSpecial(c: char) {
    c == '"' || c == '\'' || c == '\\'
  }

  /** The flags behind a character that does not end the command. A quote or separator behind a
      backslash does not end the escape: only an ordinary character or another backslash does. */
  function Walk(q: Quoting, c: char): Quoting {
    if c == '"' && !q.inChar && !q.escaped then q.(inString := !q.inString)
    else if c == '\'' && !q.inString && !q.escaped then q.(inChar := !q.inChar)
    else if c == '\\' then q.(escaped := !q.escaped)
    else if IsSeparator(c) || IsSpecial(c) then q
    else q.(escaped := false)
  }

  function WalkAll(q: Quoting, s: string): Quoting
    decreases |s|
  {
    if s == "" then q else WalkAll(Walk(q, s[0]), s[1..])
  }

  /** How much of `s` comes before the first separator that is neither quoted nor escaped. */
  function CommandLength(q: Quoting, s: string): (n: nat)
    ensures n <= |s|
    decreases |s|
  {
    if s == "" || (IsSeparator(s[0]) && q == CLEAR) then 0 else 1 + CommandLength(Walk(q, s[0]), s[1..])
  }

  function Separators(s: string): (n: nat)
    ensures n <= |s|
  {
    if s != "" && IsSeparator(s[0]) then 1 + Separators(s[1..]) else 0
  }

  /** The first command of a list, and what is behind its separator. */
  function FirstCommand(s: string): (string, Option<string>) {
    FirstOf(s[Separators(s)..])
  }

  function FirstOf(s: string): (string, Option<string>) {
    var n := CommandLength(CLEAR, s);
    (s[..n], if n == |s| then None else Some(s[n + 1..]))
  }

  /** `argsep_next_interesting`: two searches, and the nearer of what they find. */
  method NextInteresting(s: string, from: nat) returns (at: nat)
    requires from <= |s|
    ensures from <= at <= |s| && (at < |s| ==> IsSeparator(s[at]) || IsSpecial(s[at]))
    ensures forall i :: from <= i < at ==> !IsSeparator(s[i]) && !IsSpecial(s[i])
  {
    var special := from;
    while special < |s| && !IsSpecial(s[special])
      invariant from <= special <= |s| && forall i :: from <= i < special ==> !IsSpecial(s[i])
    {
      special := special + 1;
    }
    var nextDelim := from;
    while nextDelim < |s| && !IsSeparator(s[nextDelim])
      invariant from <= nextDelim <= |s| && forall i :: from <= i < nextDelim ==> !IsSeparator(s[i])
    {
      nextDelim := nextDelim + 1;
    }
    at := if nextDelim < special then nextDelim else special;
  }

  /** The walk of `argsep` stands at `end` in the command that begins at `start`; what is in front of
      `start` are separators. */
  ghost predicate Walking(s: string, start: nat, end: nat, q: Quoting) {
    && start <= end <= |s|
    && (start == end ==> q == CLEAR && FirstCommand(s) == FirstCommand(s[start..]))
    && (start < end ==> FirstCommand(s) == FirstOf(s[start..]))
    && CommandEnd(s, start, CLEAR) == CommandEnd(s, end, q)
  }

  /** Where the command being read at `at` will end. */
  function CommandEnd(s: string, at: nat, q: Quoting): nat
    requires at <= |s|
  {
    at + CommandLength(q, s[at..])
  }

  /** Ordinary characters are passed, and end an escape. */
  lemma {:induction false} PassOrdinary(s: string, from: nat, at: nat, q: Quoting)
    requires from <= at <= |s| && forall i :: from <= i < at ==> !IsSeparator(s[i]) && !IsSpecial(s[i])
    ensures var p := if from < at then q.(escaped := false) else q;
      CommandLength(q, s[from..]) == at - from + CommandLength(p, s[at..])
    decreases at - from
  {
    if from < at {
      assert s[from..][1..] == s[from + 1..];
      PassOrdinary(s, from + 1, at, q.(escaped := false));
    }
  }

  lemma PassOne(s: string, at: nat, q: Quoting)
    requires at < |s|
    ensures if IsSeparator(s[at]) && q == CLEAR then CommandLength(q, s[at..]) == 0
            else CommandLength(q, s[at..]) == 1 + CommandLength(Walk(q, s[at]), s[at + 1..])
  {
    assert s[at..][1..] == s[at + 1..];
  }

  lemma AtStart(s: string)
    ensures Walking(s, 0, 0, CLEAR)
  {
    assert s[0..] == s;
  }

  lemma AtEnd(s: string, start: nat, end: nat, q: Quoting)
    requires Walking(s, start, end, q) && forall i :: end <= i < |s| ==> !IsSeparator(s[i]) && !IsSpecial(s[i])
    ensures FirstCommand(s) == (s[start..], None)
  {
    PassOrdinary(s, end, |s|, q);
    var rest := s[start..];
    assert rest[0..] == rest && rest[..|rest|] == rest;
    assert start == end ==> Separators(rest) == 0;
  }

  lemma AtSeparator(s: string, start: nat, end: nat, at: nat, q: Quoting)
    requires Walking(s, start, end, q) && end <= at < |s| && IsSeparator(s[at])
    requires forall i :: end <= i < at ==> !IsSeparator(s[i]) && !IsSpecial(s[i])
    requires !q.inString && !q.inChar && (end < at || !q.escaped)
    ensures start < at ==> FirstCommand(s) == (s[start..at], Some(s[at + 1..]))
    ensures start == at ==> Walking(s, start + 1, start + 1, CLEAR)
  {
    hide CommandLength;
    PassOrdinary(s, end, at, q);
    PassOne(s, at, CLEAR);
    var rest := s[start..];
    if start < at {
      assert rest[0..] == rest && rest[..at - start] == s[start..at] && rest[at - start + 1..] == s[at + 1..];
      assert start == end ==> Separators(rest) == 0;
    } else {
      assert rest[1..] == s[start + 1..] && rest[Separators(rest)..] == rest[1..][Separators(rest) - 1..];
    }
  }

  /** `argsep`: the first command and the list behind it. */
  method ArgSep(s: string) returns (cmd: string, rest: Option<string>)
    ensures (cmd, rest) == FirstCommand(s)
  {
    var start, end := 0, 0;
    var inString, inChar, escaped := false, false, false;
    hide Walking, FirstCommand;
    AtStart(s);
    while true
      invariant start <= end <= |s|
      invariant Walking(s, start, end, Quoting(inString, inChar, escaped))
      decreases |s| - end
    {
      var interesting := NextInteresting(s, end);
      ghost var q := Quoting(inString, inChar, escaped);
      if interesting == |s| {
        AtEnd(s, start, end, q);
        return s[start..], None;
      }
      if escaped && interesting != end {
        escaped := false;
      }
      if s[interesting] == '"' && !inChar && !escaped {
        StepOver(s, start, end, interesting, q);
        inString := !inString;
        end := interesting + 1;
      } else if s[interesting] == '\'' && !inString && !escaped {
        StepOver(s, start, end, interesting, q);
        inChar := !inChar;
        end := interesting + 1;
      } else if s[interesting] == '\\' {
        StepOver(s, start, end, interesting, q);
        escaped := !escaped;
        end := interesting + 1;
      } else if !inString && !inChar && !escaped {
        AtSeparator(s, start, end, interesting, q);
        if interesting > start {
          return s[start..interesting], Some(s[interesting + 1..]);
        }
        start := start + 1;
        end := start;
      } else {
        StepBehind(s, start, end, interesting, q);
        end := end + 1;
      }
    }
  }

  /** The walk goes on one character further when nothing is to be done. */
  lemma StepBehind(s: string, start: nat, end: nat, at: nat, q: Quoting)
    requires Walking(s, start, end, q) && end <= at < |s|
    requires forall i :: end <= i < at ==> !IsSeparator(s[i]) && !IsSpecial(s[i])
    requires var p := if end < at then q.(escaped := false) else q; p != CLEAR && (end == at ==> Walk(p, s[at]) == p)
    ensures Walking(s, start, end + 1, if end < at then q.(escaped := false) else q)
  {
    PassOne(s, end, q);
  }

  /** The walk goes on behind a quote or backslash. */
  lemma StepOver(s: string, start: nat, end: nat, at: nat, q: Quoting)
    requires Walking(s, start, end, q) && end <= at < |s| && IsSpecial(s[at])
    requires forall i :: end <= i < at ==> !IsSeparator(s[i]) && !IsSpecial(s[i])
    ensures Walking(s, start, at + 1, Walk(if end < at then q.(escaped := false) else q, s[at]))
  {
    PassOrdinary(s, end, at, q);
    PassOne(s, at, if end < at then q.(escaped := false) else q);
    if start == end {
      assert Separators(s[start..]) == 0 && s[start..][0..] == s[start..];
    }
  }

  // ---- what becomes of a quoted name ----

  lemma {:induction false} LengthAppend(q: Quoting, a: string, b: string)
    ensures CommandLength(q, a + b) == if CommandLength(q, a) < |a| then CommandLength(q, a)
                                       else |a| + CommandLength(WalkAll(q, a), b)
    decreases |a|
  {
    if a == "" {
      assert a + b == b;
    } else {
      assert (a + b)[1..] == a[1..] + b;
      LengthAppend(Walk(q, a[0]), a[1..], b);
    }
  }

  lemma {:induction false} WalkAppend(q: Quoting, a: string, b: string)
    ensures WalkAll(q, a + b) == WalkAll(WalkAll(q, a), b)
    decreases |a|
  {
    if a == "" {
      assert a + b == b;
    } else {
      assert (a + b)[1..] == a[1..] + b;
      WalkAppend(Walk(q, a[0]), a[1..], b);
    }
  }

  lemma {:induction false} OrdinaryText(s: string)
    requires forall i :: 0 <= i < |s| ==> !IsSeparator(s[i]) && !IsSpecial(s[i])
    ensures CommandLength(CLEAR, s) == |s| && WalkAll(CLEAR, s) == CLEAR
  {
    if s != "" { OrdinaryText(s[1..]); }
  }

  const IN_STRING := Quoting(true, false, false)

  /** The flags behind a name that is written in double quotes, before the closing one. */
  function InName(name: string): Quoting {
    WalkAll(IN_STRING, W.Escaped(name))
  }

  /** No separator of a text in double quotes comes where the flags are clear. */
  ghost predicate Enclosed(text: string) {
    forall i :: 0 <= i < |text| && IsSeparator(text[i]) ==> InName(text[..i]) != CLEAR
  }

  /** The same of a name as it is dispatched, in which some newlines have become separators. */
  ghost predicate Guarded(name: string) {
    Enclosed(L.NameDispatched(name))
  }

  lemma QuotedWalked(q: Quoting, c: char)
    ensures CommandLength(q, W.Quoted(c)) == |W.Quoted(c)| <==> !(IsSeparator(c) && q == CLEAR)
  {
    if W.NeedsBackslash(c) {
      assert W.Quoted(c)[1..] == [c] && [c][1..] == "";
    } else {
      assert [c][1..] == "";
    }
  }

  lemma {:induction false} EscapedWholeIff(name: string)
    ensures CommandLength(IN_STRING, W.Escaped(name)) == |W.Escaped(name)| <==> Enclosed(name)
  {
    if name != "" {
      var init, c := name[..|name| - 1], name[|name| - 1];
      EscapedWholeIff(init);
      LengthAppend(IN_STRING, W.Escaped(init), W.Quoted(c));
      QuotedWalked(InName(init), c);
      assert forall i :: 0 <= i < |init| ==> init[..i] == name[..i] && init[i] == name[i];
      assert Enclosed(name) <==> Enclosed(init) && !(IsSeparator(c) && InName(init) == CLEAR);
    }
  }

  lemma HeadWalked(s: string)
    ensures CommandLength(CLEAR, W.HEAD + s) == |W.HEAD| + CommandLength(IN_STRING, s)
    ensures Separators(W.HEAD + s) == 0
  {
    var word := W.HEAD[..|W.HEAD| - 1];
    OrdinaryText(word);
    LengthAppend(CLEAR, word, "\"" + s);
    OpeningQuote(s);
    assert W.HEAD + s == word + ("\"" + s);
  }

  lemma OpeningQuote(s: string)
    ensures CommandLength(CLEAR, "\"" + s) == 1 + CommandLength(IN_STRING, s)
  {
    assert ("\"" + s)[1..] == s;
  }

  lemma TextWholeIff(name: string)
    ensures FirstCommand(W.Command(name)) == (W.Command(name), None) <==> Enclosed(name)
  {
    var e := W.Escaped(name);
    var s := W.Command(name);
    assert s == W.HEAD + (e + "\"") && s[0..] == s;
    HeadWalked(e + "\"");
    LengthAppend(IN_STRING, e, "\"");
    EscapedWholeIff(name);
    assert CommandLength(InName(name), "\"") == 1 by { assert "\""[1..] == ""; }
    assert CommandLength(CLEAR, s) == |s| <==> Enclosed(name);
    assert s[..|s|] == s;
  }

  /** What the server executes of the command swaybar sends. */
  function Executed(name: string): string {
    L.Dispatched(W.Command(name))
  }

  /** The command swaybar sends is taken as one command exactly if every separator in the name, and every
      newline that becomes one, is one that `argsep` believes quoted or escaped. */
  lemma CommandWholeIff(name: string)
    ensures FirstCommand(Executed(name)) == (Executed(name), None) <==> Guarded(name)
  {
    L.CommandDispatched(name);
    TextWholeIff(L.NameDispatched(name));
  }

  lemma QuotedStays(c: char)
    requires c != '"'
    ensures WalkAll(IN_STRING, W.Quoted(c)) == IN_STRING
  {
    assert [c][1..] == "";
    if c == '\\' {
      assert W.Quoted(c)[1..] == [c];
      assert WalkAll(Walk(IN_STRING, c), [c]) == IN_STRING;
    } else {
      assert W.Quoted(c) == [c] && Walk(IN_STRING, c) == IN_STRING;
    }
  }

  lemma {:induction false} QuoteFreeEnclosed(name: string)
    requires '"' !in name
    ensures InName(name) == IN_STRING && Enclosed(name)
  {
    if name != "" {
      var init, c := name[..|name| - 1], name[|name| - 1];
      QuoteFreeEnclosed(init);
      WalkAppend(IN_STRING, W.Escaped(init), W.Quoted(c));
      QuotedStays(c);
      assert forall i :: 0 <= i < |init| ==> init[..i] == name[..i] && init[i] == name[i];
    }
  }

  /** Names without double quotes are. */
  lemma QuoteFree(name: string)
    requires '"' !in name
    ensures Guarded(name)
  {
    QuoteFreeEnclosed(L.NameDispatched(name));
  }

  /** Behind two double quotes next to each other the string counts as closed: the escape of the first
      one is still on when the backslash of the second one is read. */
  lemma AdjacentQuotesCut(separator: char)
    requires IsSeparator(separator) || separator == '\n'
    ensures FirstCommand(Executed("\"\"" + [separator] + "x")).0 == "workspace \"\\\"\\\""
    ensures FirstCommand(Executed("\"\"" + [separator] + "x")).1 == Some("x\"")
  {
    var name := "\"\"" + [separator] + "x";
    var shown := if separator == '\n' then ';' else separator;
    L.CommandDispatched(name);
    assert L.NameDispatched(name) == "\"\"" + [shown] + "x";
    CutAtSeparator(shown);
  }

  lemma CutAtSeparator(c: char)
    requires IsSeparator(c)
    ensures FirstCommand(W.Command("\"\"" + [c] + "x")) == ("workspace \"\\\"\\\"", Some("x\""))
  {
    var name, two, rest := "\"\"" + [c] + "x", "\\\"\\\"", "x\"";
    TwoQuotes(c);
    var s := W.Command(name);
    assert s == W.HEAD + (two + ([c] + rest)) && s[0..] == s;
    HeadWalked(two + ([c] + rest));
    LengthAppend(IN_STRING, two, [c] + rest);
    assert CommandLength(CLEAR, [c] + rest) == 0;
    assert CommandLength(CLEAR, s) == |W.HEAD| + 4;
    assert s[..|W.HEAD| + 4] == "workspace \"\\\"\\\"" && s[|W.HEAD| + 5..] == rest;
  }

  lemma TwoQuotes(c: char)
    requires IsSeparator(c)
    ensures W.Escaped("\"\"" + [c] + "x") == "\\\"\\\"" + [c] + "x"
    ensures WalkAll(IN_STRING, "\\\"\\\"") == CLEAR && CommandLength(IN_STRING, "\\\"\\\"") == 4
  {
    L.EscapedLast("\"\"" + [c], 'x');
    L.EscapedLast("\"\"", c);
    L.EscapedLast("\"", '"');
    L.EscapedLast("", '"');
    assert "" + ['"'] == "\"" && "\"" + ['"'] == "\"\"";
    assert W.Escaped("\"\"") == "\\\"\\\"";
    var two := "\\\"\\\"";
    assert two[1..] == "\"\\\"" && two[1..][1..] == "\\\"";
    assert two[1..][1..][1..] == "\"" && two[1..][1..][1..][1..] == "";
    var p := Walk(IN_STRING, '\\');
    assert Walk(p, '"') == p && Walk(p, '\\') == IN_STRING && Walk(IN_STRING, '"') == CLEAR;
    assert WalkAll(IN_STRING, two[1..][1..][1..]) == CLEAR;
    assert WalkAll(p, two[1..][1..]) == CLEAR && CommandLength(p, two[1..][1..]) == 2;
    assert WalkAll(p, two[1..]) == CLEAR && CommandLength(p, two[1..]) == 3;
  }
}
