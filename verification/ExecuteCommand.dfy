/** From the text of a command sent by a client or bound to a key to the arguments its handler gets:
    `execute_command` strips quotes and substitutes variables, but does not unescape. */
module ExecuteCommand {
  import opened Options
  import opened Tokens
  import opened Variables
  import U = Unquote
  import W = WorkspaceCommand
  import C = CommandList
  import L = IpcLines

  /** These commands get their arguments with the quotes. */
  predicate KeepsQuotes(command: string) {
    command == "exec" || command == "exec_always" || command == "mode"
  }

  function Unquoted(command: string, token: string): string {
    if !KeepsQuotes(command) && token != "" && token[0] in "\"'" then U.Stripped(token) else token
  }

  /** Word `i` as the handler sees it; the first argument of a `set` is not substituted. */
  function Handed(vars: seq<Variable>, argv: seq<string>, isSet: bool, i: nat): string
    requires i < |argv|
  {
    if i == 0 then argv[0]
    else if isSet && i == 1 then Unquoted(argv[0], argv[1])
    else Expand(vars, "", Unquoted(argv[0], argv[i]))
  }

  function Arguments(vars: seq<Variable>, argv: seq<string>, isSet: bool): seq<string> {
    seq(|argv|, i requires 0 <= i < |argv| => Handed(vars, argv, isSet, i))
  }

  /** One call of `strip_quotes`, if the argument starts with a quote. */
  method StripArgument(token: string) returns (arg: string)
    requires '\0' !in token
    ensures arg == if token != "" && token[0] in "\"'" then U.Stripped(token) else token
  {
    if token == "" || !(token[0] == '"' || token[0] == '\'') {
      return token;
    }
    var buf := new char[|token| + 1](i requires 0 <= i <= |token| => if i < |token| then token[i] else '\0');
    assert buf[..|token|] == token;
    U.StripQuotes(buf, |token|);
    U.HoldsIs(buf[..], |U.Stripped(token)|);
    return U.CString(buf[..]);
  }

  /** The first loop. */
  method StripArguments(argv: seq<string>) returns (args: seq<string>)
    requires argv != [] && forall t :: t in argv ==> '\0' !in t
    ensures |args| == |argv| && args[0] == argv[0]
    ensures forall k :: 1 <= k < |argv| ==> args[k] == Unquoted(argv[0], argv[k])
  {
    args := argv;
    if argv[0] != "exec" && argv[0] != "exec_always" && argv[0] != "mode" {
      for i := 1 to |argv|
        invariant |args| == |argv| && args[0] == argv[0]
        invariant forall k :: 1 <= k < i ==> args[k] == Unquoted(argv[0], argv[k])
        invariant forall k :: i <= k < |argv| ==> args[k] == argv[k]
      {
        var arg := StripArgument(args[i]);
        args := args[i := arg];
      }
    }
  }

  /** From splitting the command to calling the handler; `isSet` tells whether the handler found is
      that of `set`. */
  method PrepareArguments(vars: seq<Variable>, cmd: string, isSet: bool) returns (args: seq<string>)
    requires cmd != "" && !IsSpace(cmd[0]) && '\0' !in cmd
    ensures args == Arguments(vars, Split(cmd), isSet)
  {
    var tokens, argc := SplitArgs(cmd);
    var argv := tokens[..argc];
    WordsOfCommand(cmd);
    args := StripArguments(argv);
    for i := (if isSet && |argv| > 1 then 2 else 1) to |argv|
      invariant |args| == |argv|
      invariant forall k :: 0 <= k < i ==> args[k] == Handed(vars, argv, isSet, k)
      invariant forall k :: i <= k < |argv| ==> args[k] == Unquoted(argv[0], argv[k])
    {
      var arg := DoVarReplacement(vars, args[i]);
      args := args[i := arg];
    }
  }

  lemma {:induction false} PartOfLine(s: string, u: string, c: char)
    requires u in Split(s) && c in u
    ensures c in s
    decreases |s|
  {
    hide TokenLength;
    var t := s[Spaces(s)..];
    SplitAfterSpaces(s);
    if t != "" {
      var n := TokenLength(CLEAR, t);
      FirstToken(t);
      if u != t[..n] {
        PartOfLine(t[n..], u, c);
      }
      assert c in t;
    }
  }

  lemma WordsOfCommand(cmd: string)
    requires cmd != "" && !IsSpace(cmd[0]) && '\0' !in cmd
    ensures Split(cmd) != [] && forall t :: t in Split(cmd) ==> '\0' !in t
  {
    FirstToken(cmd);
    forall t | t in Split(cmd)
      ensures '\0' !in t
    {
      if '\0' in t { PartOfLine(cmd, t, '\0'); }
    }
  }

  // ---- what becomes of a workspace's name ----

  predicate Plain(name: string) {
    '"' !in name && '\\' !in name && '$' !in name && '\n' !in name
  }

  /** What the handler of `workspace` gets for the command swaybar sends, if what the server makes of that
      is one command. */
  function Received(vars: seq<Variable>, name: string): Option<seq<string>> {
    var command := C.Executed(name);
    if C.FirstCommand(command) == (command, None) then Some(Arguments(vars, Split(command), false)) else None
  }

  lemma ReceivedIs(vars: seq<Variable>, name: string)
    ensures Received(vars, name) ==
      if C.Guarded(name) then Some(["workspace", Expand(vars, "", W.Escaped(L.NameDispatched(name)))]) else None
  {
    C.CommandWholeIff(name);
    L.CommandDispatched(name);
    WorkspaceArguments(vars, L.NameDispatched(name));
  }

  lemma WorkspaceArguments(vars: seq<Variable>, name: string)
    ensures Arguments(vars, Split(W.Command(name)), false) == ["workspace", Expand(vars, "", W.Escaped(name))]
  {
    W.CommandSplits(name);
    W.ArgumentStripped(name);
    var argv := ["workspace", W.Argument(name)];
    assert !KeepsQuotes("workspace") by { assert |"workspace"| == 9; }
    assert W.Argument(name)[0] == '"';
    assert Handed(vars, argv, false, 1) == Expand(vars, "", W.Escaped(name));
  }

  function Count(c: char, s: string): nat {
    multiset(s)[c]
  }

  lemma CountLast(c: char, s: string, d: char)
    ensures Count(c, s + [d]) == Count(c, s) + if c == d then 1 else 0
  {
  }

  /** Without variables, substitution drops nothing but dollar signs. */
  lemma {:induction false} NothingElseDropped(c: char, done: string, rest: string)
    requires c != '$'
    ensures Count(c, Expand([], done, rest)) == Count(c, done) + Count(c, rest)
    decreases |rest|
  {
    if rest != "" {
      assert rest == [rest[0]] + rest[1..];
      if |rest| > 1 {
        assert rest[1..] == [rest[1]] + rest[2..];
      }
      if rest[0] != '$' || Variables.Escaped(done) {
        NothingElseDropped(c, done + [rest[0]], rest[1..]);
      } else if |rest| > 1 && rest[1] == '$' {
        NothingElseDropped(c, done + "$", rest[2..]);
      } else {
        NothingElseDropped(c, done + "$", rest[1..]);
      }
    }
  }

  lemma {:induction false} EscapedCount(name: string)
    ensures Count('\\', W.Escaped(name)) == 2 * Count('\\', name) + Count('"', name)
    ensures Count('\n', W.Escaped(name)) == Count('\n', name)
  {
    hide Count;
    if name == "" {
      NoneCounted('\\');
      NoneCounted('"');
    } else {
      var init, c := name[..|name| - 1], name[|name| - 1];
      EscapedCount(init);
      assert name == init + [c];
      EscapedCountNext(init, c);
    }
  }

  lemma NoneCounted(c: char)
    ensures Count(c, "") == 0
  {
  }

  lemma EscapedCountNext(init: string, c: char)
    requires Count('\\', W.Escaped(init)) == 2 * Count('\\', init) + Count('"', init)
    requires Count('\n', W.Escaped(init)) == Count('\n', init)
    ensures Count('\\', W.Escaped(init + [c])) == 2 * Count('\\', init + [c]) + Count('"', init + [c])
    ensures Count('\n', W.Escaped(init + [c])) == Count('\n', init + [c])
  {
    hide Count, W.Escaped;
    L.EscapedLast(init, c);
    CountLast('\\', init, c);
    CountLast('"', init, c);
    CountLast('\n', init, c);
    QuotedCount(W.Escaped(init), c);
  }

  lemma QuotedCount(s: string, c: char)
    ensures Count('\\', s + W.Quoted(c)) == Count('\\', s) + if c == '\\' then 2 else if c == '"' then 1 else 0
    ensures Count('\n', s + W.Quoted(c)) == Count('\n', s) + if c == '\n' then 1 else 0
  {
    if W.NeedsBackslash(c) {
      assert s + W.Quoted(c) == (s + ['\\']) + [c];
    }
  }

  /** Joining lines leaves fewer newlines. */
  lemma {:induction false} FewerNewlines(prev: char, name: string)
    ensures Count('\n', L.Joined(prev, name)) <= Count('\n', name)
    ensures prev != '\n' && '\n' in name ==> Count('\n', L.Joined(prev, name)) < Count('\n', name)
  {
    if name != "" {
      var init, c := name[..|name| - 1], name[|name| - 1];
      FewerNewlines(prev, init);
      assert name == init + [c];
      assert init != "" ==> init[|init| - 1] in init;
      NewlinesNext(prev, init, c);
    }
  }

  lemma NewlinesNext(prev: char, init: string, c: char)
    ensures var shown := L.JoinedChar(L.Last(prev, init), c);
      Count('\n', L.Joined(prev, init + [c])) == Count('\n', L.Joined(prev, init)) + if shown == '\n' then 1 else 0
    ensures Count('\n', init + [c]) == Count('\n', init) + if c == '\n' then 1 else 0
  {
    L.JoinedLast(prev, init, c);
    CountLast('\n', init, c);
    CountLast('\n', L.Joined(prev, init), L.JoinedChar(L.Last(prev, init), c));
  }

  const ERASING: seq<Variable> := [Symbol("$", "")]

  /** With an empty variable whose name is a dollar sign alone, every dollar sign makes text without
      backslashes shorter. */
  lemma {:induction false} DollarsErased(done: string, rest: string)
    requires '\\' !in done && '\\' !in rest
    ensures |Expand(ERASING, done, rest)| <= |done| + |rest|
    ensures '$' in rest ==> |Expand(ERASING, done, rest)| < |done| + |rest|
    decreases |rest|
  {
    if rest != "" {
      if rest[0] != '$' {
        DollarsErased(done + [rest[0]], rest[1..]);
      } else if |rest| > 1 && rest[1] == '$' {
        DollarsErased(done + "$", rest[2..]);
      } else {
        assert "$" <= rest && FirstMatch(ERASING, rest) == Some(ERASING[0]);
        DollarsErased(done + "", rest[1..]);
      }
    }
  }

  lemma PlainReceived(vars: seq<Variable>, name: string)
    requires Plain(name)
    ensures Received(vars, name) == Some(["workspace", name])
  {
    L.OneLineDispatched('"', name);
    ReceivedIs(vars, name);
    C.QuoteFree(name);
    PlainExpanded(vars, name);
  }

  /** A table with which the name arrives as something else. */
  function Spoiler(name: string): seq<Variable> {
    if '\n' in name || '"' in name || '\\' in name then [] else ERASING
  }

  lemma SpoilerSpoils(name: string)
    requires !Plain(name)
    ensures Received(Spoiler(name), name) != Some(["workspace", name])
  {
    var shown := L.NameDispatched(name);
    ReceivedIs(Spoiler(name), name);
    EscapedCount(shown);
    if '\n' in name {
      FewerNewlines('"', name);
      NothingElseDropped('\n', "", W.Escaped(shown));
      assert Count('\n', Expand([], "", W.Escaped(shown))) < Count('\n', name);
    } else {
      L.OneLineDispatched('"', name);
      if '"' in name || '\\' in name {
        NothingElseDropped('\\', "", W.Escaped(name));
        assert Count('\\', Expand([], "", W.Escaped(name))) > Count('\\', name);
      } else {
        W.EscapedSameIff(name);
        DollarsErased("", name);
      }
    }
  }

  /** The name arrives as the one argument of one command, whatever variables are defined, exactly if it
      contains no double quote, no backslash, no dollar sign and no newline. */
  lemma NameArrivesIff(name: string)
    ensures (forall vars :: Table(vars) ==> Received(vars, name) == Some(["workspace", name])) <==> Plain(name)
  {
    if Plain(name) {
      forall vars | Table(vars)
        ensures Received(vars, name) == Some(["workspace", name])
      {
        PlainReceived(vars, name);
      }
    } else {
      SpoilerSpoils(name);
      assert Table(Spoiler(name));
    }
  }

  /** A name such as `a$$b`: stripping alone gives it back, but it arrives as `a$b`, whatever is
      defined. */
  lemma DoubledDollarLost(vars: seq<Variable>, a: string, b: string)
    requires Plain(a) && Plain(b)
    ensures U.Stripped(W.Argument(a + (['$', '$'] + b))) == a + (['$', '$'] + b)
    ensures Received(vars, a + (['$', '$'] + b)) == Some(["workspace", a + "$" + b])
  {
    var name := a + (['$', '$'] + b);
    L.OneLineDispatched('"', name);
    W.EscapedSameIff(name);
    W.ArgumentStripped(name);
    ReceivedIs(vars, name);
    C.QuoteFree(name);
    PairExpanded(vars, a, b);
  }

  lemma PairExpanded(vars: seq<Variable>, a: string, b: string)
    requires Plain(a) && Plain(b)
    ensures Expand(vars, "", a + (['$', '$'] + b)) == a + "$" + b
  {
    ExpandPlain(vars, "", a, ['$', '$'] + b);
    assert "" + a == a && b + "" == b;
    ExpandPair(vars, a, b);
    ExpandPlain(vars, a + "$", b, "");
  }

  lemma TwoLinesJoined(a: string, b: string)
    requires '\n' !in a && '\n' !in b
    ensures L.NameDispatched(a + ['\n'] + b) == a + [';'] + b
  {
    var name := a + ['\n'] + b;
    assert a != "" ==> a[|a| - 1] in a;
    assert forall i :: 0 <= i < |name| && i != |a| ==> name[i] in a || name[i] in b;
  }

  lemma PlainExpanded(vars: seq<Variable>, name: string)
    requires Plain(name)
    ensures Expand(vars, "", W.Escaped(name)) == name
  {
    W.EscapedSameIff(name);
    ExpandPlain(vars, "", name, "");
    assert name + "" == name && "" + name == name;
  }

  /** A name of two lines: it arrives as one, with a semicolon between them. */
  lemma NewlineLost(vars: seq<Variable>, a: string, b: string)
    requires Plain(a) && Plain(b)
    ensures Received(vars, a + ['\n'] + b) == Some(["workspace", a + [';'] + b])
  {
    TwoLinesJoined(a, b);
    ReceivedIs(vars, a + ['\n'] + b);
    C.QuoteFree(a + ['\n'] + b);
    PlainExpanded(vars, a + [';'] + b);
  }

  // ---- quotes and variables in any argument ----

  /** An argument in quotes arrives without them, with all between them, unless the command is one of the three that
      keep them. */
  lemma QuotedArgument(vars: seq<Variable>, command: string, mark: char, inner: string, i: nat, argv: seq<string>)
    requires U.IsQuote(mark) && mark !in inner && '\\' !in inner && '$' !in inner
    requires 0 < i < |argv| && argv[0] == command && argv[i] == [mark] + inner + [mark]
    ensures Handed(vars, argv, false, i) == if command in {"exec", "exec_always", "mode"} then argv[i] else inner
  {
    U.StripPair(mark, inner, "");
    assert argv[i] + "" == argv[i] && inner + U.Stripped("") == inner;
    var arrives := if KeepsQuotes(command) then argv[i] else inner;
    assert '$' !in arrives;
    ExpandPlain(vars, "", arrives, "");
    assert arrives + "" == arrives && "" + arrives == arrives;
  }

  /** The value of a variable arrives as it is, quotes, spaces and all: it is put in behind the splitting and the
      stripping. */
  lemma ValueArrives(vars: seq<Variable>, argv: seq<string>, i: nat, v: Variable)
    requires 0 < i < |argv| && argv[i] == v.name && FirstMatch(vars, v.name) == Some(v) && '$' !in v.name[1..]
    requires v.value != "" && v.value[|v.value| - 1] != '\\'
    ensures Handed(vars, argv, false, i) == v.value
  {
    assert |v.name| > 1 ==> v.name[1] in v.name[1..];
    assert Unquoted(argv[0], v.name) == v.name;
    InsertedVerbatim(vars, "", v.name);
    assert v.name[|v.name|..] == "" && "" + v.value + "" == v.value;
  }

  /** The name in a `set` is not substituted, whatever is defined. */
  lemma SetNameArrives(vars: seq<Variable>, argv: seq<string>)
    requires |argv| > 1 && argv[1] != "" && !U.IsQuote(argv[1][0])
    ensures Handed(vars, argv, true, 1) == argv[1] && Handed(vars, argv, true, 0) == argv[0]
  {
  }
}
