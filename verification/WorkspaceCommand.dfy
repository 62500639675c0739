/** The command swaybar sends to switch to a workspace, and what becomes of the name in it. */
module WorkspaceCommand {
  import opened Tokens
  import opened Unquote

  const HEAD := "workspace \""

  predicate NeedsBackslash(c: char) {
    c == '"' || c == '\\'
  }

  /** The name with a backslash before every double quote and backslash. */
  function Escaped(name: string): string {
    if name == "" then ""
    else Escaped(name[..|name| - 1]) + Quoted(name[|name| - 1])
  }

  function Quoted(c: char): string {
    if NeedsBackslash(c) then ['\\', c] else [c]
  }

  function Command(name: string): string {
    HEAD + Escaped(name) + "\""
  }

  lemma {:induction false} EscapedFits(name: string, i: nat)
    requires i <= |name|
    ensures |Escaped(name[..i])| <= |Escaped(name)| && |name| <= |Escaped(name)| <= 2 * |name|
  {
    if i == |name| { assert name[..i] == name; }
    if name != "" {
      EscapedFits(name[..|name| - 1], if i < |name| then i else 0);
      if i < |name| { assert name[..|name| - 1][..i] == name[..i]; }
    }
  }

  /** The buffer of `ipc_send_workspace_command`: it is filled exactly up to the closing quote,
      which was put in place before. */
  method BuildCommand(ws: string) returns (command: array<char>, size: nat)
    requires 2 * |ws| + 12 < 0x1_0000_0000
    ensures size == |Command(ws)| && command[..] == Command(ws) + ['\0']
  {
    size := Measure(ws);
    command := new char[size + 1];
    Copy(command, 0, HEAD);
    command[size - 1], command[size] := '"', '\0';
    assert command[..|HEAD|] == HEAD;
    PutName(command, ws);
    assert command[..] == command[..size - 1] + ['"'] + ['\0'];
  }

  /** The filling loop, behind the head and up to the closing quote. */
  method PutName(command: array<char>, ws: string)
    requires command.Length == |HEAD| + |Escaped(ws)| + 2 && command[..|HEAD|] == HEAD
    modifies command
    ensures command[..command.Length - 2] == HEAD + Escaped(ws)
    ensures forall i :: command.Length - 2 <= i < command.Length ==> command[i] == old(command[i])
  {
    var d := |HEAD|;
    ghost var out := HEAD;
    assert HEAD + Escaped(ws[..0]) == HEAD;
    for i := 0 to |ws|
      invariant out == HEAD + Escaped(ws[..i]) && |out| == d <= command.Length - 2 && command[..d] == out
      invariant forall k :: command.Length - 2 <= k < command.Length ==> command[k] == old(command[k])
    {
      EscapedNext(ws, i);
      EscapedFits(ws, i + 1);
      out := out + Quoted(ws[i]);
      d := PutChar(command, d, ws[i]);
    }
    assert ws[..|ws|] == ws;
  }

  /** The counting loop. */
  method Measure(ws: string) returns (size: nat)
    ensures size == |HEAD| + |Escaped(ws)| + 1
  {
    size := |"workspace \"\""| + |ws|;
    for i := 0 to |ws|
      invariant size == |HEAD| + 1 + |ws| + |Escaped(ws[..i])| - i
    {
      EscapedNext(ws, i);
      if ws[i] == '"' || ws[i] == '\\' {
        size := size + 1;
      }
    }
    assert ws[..|ws|] == ws;
  }

  /** One turn of the filling loop, which stays in front of the closing quote. */
  method PutChar(command: array<char>, d: nat, c: char) returns (next: nat)
    requires d + |Quoted(c)| <= command.Length - 2
    modifies command
    ensures next == d + |Quoted(c)| && command[..next] == old(command[..d]) + Quoted(c)
    ensures forall i :: next <= i < command.Length ==> command[i] == old(command[i])
  {
    next := d;
    if c == '"' || c == '\\' {
      command[next] := '\\';
      next := next + 1;
    }
    command[next] := c;
    next := next + 1;
  }

  lemma EscapedNext(name: string, i: nat)
    requires i < |name|
    ensures Escaped(name[..i + 1]) == Escaped(name[..i]) + Quoted(name[i])
  {
    assert name[..i + 1][..i] == name[..i];
  }

  // ---- reading the command back ----

  const IN_STRING := Lex(true, false, false, false)

  lemma {:induction false} FeedAppend(q: Lex, a: string, b: string)
    ensures FeedAll(q, a + b) == FeedAll(FeedAll(q, a), b)
    decreases |a|
  {
    if a == "" {
      assert a + b == b;
    } else {
      FeedAppend(Feed(q, a[0]), a[1..], b);
      assert (a + b)[1..] == a[1..] + b;
    }
  }

  /** No flags but these end a token, so text that keeps `inString` set is read through. */
  lemma {:induction false} LengthAppend(q: Lex, a: string, b: string)
    requires TokenLength(q, a) == |a|
    ensures TokenLength(q, a + b) == |a| + TokenLength(FeedAll(q, a), b)
    decreases |a|
  {
    if a == "" {
      assert a + b == b;
    } else {
      LengthAppend(Feed(q, a[0]), a[1..], b);
      assert (a + b)[1..] == a[1..] + b;
    }
  }

  /** Inside double quotes an escaped name is read through, whatever it contains, and leaves the
      quotes open. */
  lemma {:induction false} EscapedInString(name: string)
    ensures FeedAll(IN_STRING, Escaped(name)) == IN_STRING
    ensures TokenLength(IN_STRING, Escaped(name)) == |Escaped(name)|
  {
    if name != "" {
      var init, c := Escaped(name[..|name| - 1]), name[|name| - 1];
      EscapedInString(name[..|name| - 1]);
      FeedAppend(IN_STRING, init, Quoted(c));
      LengthAppend(IN_STRING, init, Quoted(c));
      QuotedInString(c);
    }
  }

  lemma QuotedInString(c: char)
    ensures FeedAll(IN_STRING, Quoted(c)) == IN_STRING
    ensures TokenLength(IN_STRING, Quoted(c)) == |Quoted(c)|
  {
    if NeedsBackslash(c) {
      var q := Feed(IN_STRING, '\\');
      FeedFirst(IN_STRING, '\\', [c]);
      FeedOne(q, c);
    } else {
      FeedOne(IN_STRING, c);
    }
  }

  lemma FeedFirst(q: Lex, c: char, rest: string)
    requires !Ends(q, c)
    ensures FeedAll(q, [c] + rest) == FeedAll(Feed(q, c), rest)
    ensures TokenLength(q, [c] + rest) == 1 + TokenLength(Feed(q, c), rest)
  {
    assert ([c] + rest)[1..] == rest;
  }

  lemma FeedOne(q: Lex, c: char)
    requires !Ends(q, c)
    ensures FeedAll(q, [c]) == Feed(q, c) && TokenLength(q, [c]) == 1
  {
    FeedFirst(q, c, "");
    assert [c] + "" == [c];
  }

  function Argument(name: string): string {
    "\"" + Escaped(name) + "\""
  }

  lemma ArgumentIsToken(name: string)
    ensures IsToken(Argument(name))
  {
    EscapedInString(name);
    QuotedIsToken(Escaped(name));
  }

  /** Text that leaves double quotes open, between double quotes, is one closed token. */
  lemma QuotedIsToken(e: string)
    requires FeedAll(IN_STRING, e) == IN_STRING && TokenLength(IN_STRING, e) == |e|
    ensures IsToken("\"" + e + "\"")
  {
    assert ("\"" + e + "\"")[1..] == e + "\"" && Feed(CLEAR, '"') == IN_STRING;
    FeedAppend(IN_STRING, e, "\"");
    LengthAppend(IN_STRING, e, "\"");
    assert "\""[1..] == "" && Feed(IN_STRING, '"') == CLEAR;
    assert FeedAll(IN_STRING, "\"") == CLEAR && TokenLength(IN_STRING, "\"") == 1;
  }

  lemma WordIsToken()
    ensures IsToken("workspace")
  {
    assert forall i :: 0 <= i < 9 ==> Feed(CLEAR, "workspace"[i]) == CLEAR && !IsSpace("workspace"[i]);
    PlainToken("workspace");
  }

  lemma {:induction false} PlainToken(s: string)
    requires forall i :: 0 <= i < |s| ==> Feed(CLEAR, s[i]) == CLEAR && !IsSpace(s[i])
    ensures TokenLength(CLEAR, s) == |s| && FeedAll(CLEAR, s) == CLEAR
    decreases |s|
  {
    if s != "" { PlainToken(s[1..]); }
  }

  /** The command splits into exactly the word `workspace` and the quoted name. */
  lemma CommandSplits(name: string)
    ensures Split(Command(name)) == ["workspace", Argument(name)]
  {
    hide Split, Escaped, IsToken;
    WordIsToken();
    ArgumentIsToken(name);
    var args := ["workspace", Argument(name)];
    assert args[1..] == [Argument(name)];
    assert Command(name) == Join(args);
    SplitJoin(args);
  }

  const QUOTED := Quotes(true, false, false)

  lemma {:induction false} StripEscaped(name: string, rest: string)
    ensures Strip(QUOTED, Escaped(name) + rest) == Escaped(name) + Strip(QUOTED, rest)
  {
    if name == "" {
      assert Escaped(name) + rest == rest;
    } else {
      var init, c := Escaped(name[..|name| - 1]), name[|name| - 1];
      assert Escaped(name) + rest == init + (Quoted(c) + rest);
      StripEscaped(name[..|name| - 1], Quoted(c) + rest);
      StripQuoted(c, rest);
    }
  }

  lemma StripQuoted(c: char, rest: string)
    ensures Strip(QUOTED, Quoted(c) + rest) == Quoted(c) + Strip(QUOTED, rest)
  {
    assert ([c] + rest)[1..] == rest;
    if NeedsBackslash(c) {
      assert (Quoted(c) + rest)[1..] == [c] + rest;
      assert Pass(Pass(QUOTED, '\\'), c) == QUOTED;
      assert Strip(Pass(QUOTED, '\\'), [c] + rest) == [c] + Strip(QUOTED, rest);
    }
  }

  lemma ArgumentStripped(name: string)
    ensures Stripped(Argument(name)) == Escaped(name)
  {
    assert Argument(name)[1..] == Escaped(name) + "\"";
    StripEscaped(name, "\"");
    assert "\""[1..] == "" && Strip(QUOTED, "\"") == "";
  }

  lemma {:induction false} EscapedDecodes(name: string)
    requires '\0' !in name
    ensures OnlySimple(Escaped(name)) && Decode(Escaped(name)) == name
  {
    if name != "" {
      var init, c := name[..|name| - 1], name[|name| - 1];
      EscapedDecodes(init);
      QuotedDecodes(c);
      DecodeAppend(Escaped(init), Quoted(c));
      assert name == init + [c];
    }
  }

  lemma QuotedDecodes(c: char)
    requires c != '\0'
    ensures OnlySimple(Quoted(c)) && Decode(Quoted(c)) == [c]
  {
    assert [c][1..] == "";
    if NeedsBackslash(c) { assert Quoted(c)[2..] == ""; }
  }

  lemma {:induction false} DecodeAppend(a: string, b: string)
    requires OnlySimple(a) && OnlySimple(b)
    ensures OnlySimple(a + b) && Decode(a + b) == Decode(a) + Decode(b)
    decreases |a|
  {
    if a == "" {
      assert a + b == b;
    } else {
      var k := if a[0] == '\\' then 2 else 1;
      DecodeAppend(a[k..], b);
      assert (a + b)[k..] == a[k..] + b;
    }
  }

  /** Quoting is invertible: for every NUL-free name the command splits into two arguments, and
      stripping the quotes of the second and unescaping it gives the name back. */
  lemma QuotingInvertible(name: string)
    requires '\0' !in name
    ensures Split(Command(name)) == ["workspace", Argument(name)]
    ensures NoLoneBackslash(Stripped(Argument(name)), 0)
    ensures Unescaped(Stripped(Argument(name))) == name
  {
    CommandSplits(name);
    ArgumentStripped(name);
    EscapedDecodes(name);
    UnescapedSimple(Escaped(name));
  }

  /** Without the unescaping, as in `execute_command`, the name comes back exactly if it contains
      neither double quotes nor backslashes. */
  lemma StrippingAloneIff(name: string)
    ensures Stripped(Argument(name)) == name <==> forall c :: c in name ==> !NeedsBackslash(c)
  {
    ArgumentStripped(name);
    EscapedSameIff(name);
  }

  lemma EscapedSameIff(name: string)
    ensures Escaped(name) == name <==> forall c :: c in name ==> !NeedsBackslash(c)
    ensures |Escaped(name)| == |name| <==> forall c :: c in name ==> !NeedsBackslash(c)
  {
    if c :| c in name && NeedsBackslash(c) {
      EscapedLonger(name, c);
    } else {
      EscapedPlain(name);
    }
  }

  lemma {:induction false} EscapedPlain(name: string)
    requires forall c :: c in name ==> !NeedsBackslash(c)
    ensures Escaped(name) == name
  {
    if name != "" {
      var init, c := name[..|name| - 1], name[|name| - 1];
      assert name == init + [c];
      assert c in name && forall d :: d in init ==> d in name;
      EscapedPlain(init);
    }
  }

  lemma {:induction false} EscapedLonger(name: string, c: char)
    requires c in name && NeedsBackslash(c)
    ensures |Escaped(name)| > |name|
  {
    var init := name[..|name| - 1];
    assert name == init + [name[|name| - 1]];
    EscapedFits(init, 0);
    if c in init { EscapedLonger(init, c); }
  }
}
