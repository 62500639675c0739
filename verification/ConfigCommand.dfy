/** From the words of a configuration line to the arguments its handler gets: substitution,
    splitting again, stripping quotes and unescaping, as in `config_command`. */
module ConfigCommand {
  import opened Options
  import opened Tokens
  import opened Variables
  import U = Unquote
  import W = WorkspaceCommand

  /** What matters of a handler: is it that of `set`, and does it get its arguments with quotes? */
  type Handler = h: HandlerInfo | h.isSet ==> h.keepsQuotes witness HandlerInfo(false, false)

  datatype HandlerInfo = HandlerInfo(isSet: bool, keepsQuotes: bool)

  /** The name a `set` defines gets a second dollar sign, so that it is not substituted. */
  function NameProtected(argv: seq<string>, h: Handler): seq<string> {
    if h.isSet && |argv| > 1 && argv[1] != "" && argv[1][0] == '$' then argv[1 := "$" + argv[1]] else argv
  }

  function Substituted(vars: seq<Variable>, argv: seq<string>, h: Handler): seq<string>
    requires argv != []
  {
    Split(Expand(vars, "", Join(NameProtected(argv, h))))
  }

  function Unquoted(token: string, h: Handler): string {
    if !h.keepsQuotes && token != "" && token[0] in "\"'" then U.Stripped(token) else token
  }

  /** Which words are rewritten: all but the command, and but the name in a `set`. */
  function FirstRewritten(h: Handler): nat {
    if h.isSet then 2 else 1
  }

  /** The words with those from `first` on unquoted and unescaped. */
  function Delivered(tokens: seq<string>, first: nat, h: Handler): seq<string> {
    seq(|tokens|, i requires 0 <= i < |tokens| => Word(tokens[i], i >= first, h))
  }

  function Word(token: string, rewritten: bool, h: Handler): string {
    if rewritten then U.Unescaped(Unquoted(token, h)) else token
  }

  predicate Readable(token: string, h: Handler) {
    '\0' !in token && U.NoLoneBackslash(Unquoted(token, h), 0)
  }

  /** One turn of the loop over the words. */
  method DeliverToken(token: string, h: Handler) returns (arg: string)
    requires Readable(token, h)
    ensures arg == Word(token, true, h)
  {
    var buf := new char[|token| + 1](i requires 0 <= i <= |token| => if i < |token| then token[i] else '\0');
    assert buf[..|token|] == token;
    ghost var length := |token|;
    if !h.keepsQuotes && token != "" && (token[0] == '"' || token[0] == '\'') {
      U.StripQuotes(buf, |token|);
      length := |U.Stripped(token)|;
    }
    U.HoldsIs(buf[..], length);
    assert buf[..length] == Unquoted(token, h);
    var _ := U.UnescapeString(buf, length);
    return U.CString(buf[..]);
  }

  /** The second half of `config_command`, up to the call of the handler. */
  method PrepareArguments(vars: seq<Variable>, argv: seq<string>, h: Handler) returns (args: seq<string>)
    requires argv != [] && forall t :: t in Substituted(vars, argv, h) ==> Readable(t, h)
    ensures args == Delivered(Substituted(vars, argv, h), FirstRewritten(h), h)
  {
    var named := NameProtected(argv, h);
    var command := DoVarReplacement(vars, Join(named));
    var tokens, argc := SplitArgs(command);
    var words := tokens[..argc];
    args := [];
    for i := 0 to |words|
      invariant |args| == i && forall k :: 0 <= k < i ==> args[k] == Word(words[k], k >= FirstRewritten(h), h)
    {
      var arg := words[i];
      if i >= FirstRewritten(h) {
        arg := DeliverToken(arg, h);
      }
      args := args + [arg];
    }
  }

  // ---- what is promised ----

  /** A doubled dollar sign keeps a name from being substituted. */
  lemma ExpandProtected(vars: seq<Variable>, head: string, name: string, rest: string)
    requires '$' !in head && head != "" && head[|head| - 1] != '\\' && '$' !in name
    ensures Expand(vars, "", head + ("$$" + ((name + " ") + rest)))
         == (head + "$" + (name + " ")) + Expand(vars, "", rest)
  {
    var tail := (name + " ") + rest;
    ExpandPlain(vars, "", head, "$$" + tail);
    assert "" + head == head;
    assert "$$" + tail == ['$', '$'] + tail;
    ExpandPair(vars, head, tail);
    ExpandPlain(vars, head + "$", name + " ", rest);
    var done := head + "$" + (name + " ");
    ExpandBehind(vars, done, "", rest);
    assert done + "" == done;
  }

  /** A name can be set whatever is defined already, even a prefix of it: the name arrives as it was
      written, and only what follows it is substituted. */
  lemma SetKeepsName(vars: seq<Variable>, name: string, values: seq<string>)
    requires IsToken("$" + name) && '$' !in name && values != []
    ensures Substituted(vars, ["set", "$" + name] + values, HandlerInfo(true, true))
         == ["set", "$" + name] + Split(Expand(vars, "", Join(values)))
  {
    SetExpanded(vars, name, values);
    SetIsToken();
    SplitTwo("set", "$" + name, Expand(vars, "", Join(values)));
  }

  /** The same without a value, which the handler then complains about. */
  lemma SetAloneKeepsName(vars: seq<Variable>, name: string)
    requires IsToken("$" + name) && '$' !in name
    ensures Substituted(vars, ["set", "$" + name], HandlerInfo(true, true)) == ["set", "$" + name]
  {
    var shown := NameProtected(["set", "$" + name], HandlerInfo(true, true));
    assert shown[1..] == ["$" + ("$" + name)];
    assert Join(shown) == "set " + ("$$" + name);
    ExpandPlain(vars, "", "set ", "$$" + name);
    assert "" + "set " == "set " && "$$" + name == ['$', '$'] + name;
    ExpandPair(vars, "set ", name);
    ExpandPlain(vars, "set $", name, "");
    assert name + "" == name && "set " + "$" == "set $";
    assert "set $" + name == "set" + " " + ("$" + name);
    SetIsToken();
    SplitFirst("set", "$" + name);
    WholeToken("$" + name);
  }

  lemma SplitTwo(t: string, u: string, rest: string)
    requires IsToken(t) && IsToken(u)
    ensures Split(t + " " + (u + " " + rest)) == [t, u] + Split(rest)
  {
    SplitFirst(t, u + " " + rest);
    SplitFirst(u, rest);
  }

  lemma SetExpanded(vars: seq<Variable>, name: string, values: seq<string>)
    requires '$' !in name && values != []
    ensures Expand(vars, "", Join(NameProtected(["set", "$" + name] + values, HandlerInfo(true, true))))
         == "set" + " " + (("$" + name) + " " + Expand(vars, "", Join(values)))
  {
    JoinProtected(name, values);
    ExpandProtected(vars, "set ", name, Join(values));
    Regrouped(name, Expand(vars, "", Join(values)));
  }

  lemma Regrouped(name: string, after: string)
    ensures "set " + "$" + (name + " ") + after == "set" + " " + (("$" + name) + " " + after)
  {
  }

  lemma JoinProtected(name: string, values: seq<string>)
    requires values != []
    ensures Join(NameProtected(["set", "$" + name] + values, HandlerInfo(true, true)))
         == "set " + ("$$" + ((name + " ") + Join(values)))
  {
    var shown := NameProtected(["set", "$" + name] + values, HandlerInfo(true, true));
    assert shown == ["set", "$" + ("$" + name)] + values;
    assert shown[1..] == ["$" + ("$" + name)] + values && shown[1..][1..] == values;
  }

  lemma SetIsToken()
    ensures IsToken("set")
  {
    assert forall i :: 0 <= i < 3 ==> Feed(CLEAR, "set"[i]) == CLEAR && !IsSpace("set"[i]);
    W.PlainToken("set");
  }

  /** The handler of `set` gets its words with quotes and the name as it is; what follows is unescaped. */
  lemma SetDelivers(name: string, values: seq<string>)
    ensures var h: Handler := HandlerInfo(true, true);
      var args := Delivered(["set", name] + values, FirstRewritten(h), h);
      && |args| == |values| + 2 && args[0] == "set" && args[1] == name
      && forall i :: 0 <= i < |values| ==> args[i + 2] == U.Unescaped(values[i])
  {
  }

  /** Other handlers that keep quotes get all their words with them, those that do not get what is between them;
      either way they are unescaped. */
  lemma QuotesDelivered(tokens: seq<string>, i: nat, mark: char, inner: string, keeps: bool)
    requires 0 < i < |tokens| && tokens[i] == [mark] + inner + [mark]
    requires U.IsQuote(mark) && mark !in inner && U.Raw(inner)
    ensures var h: Handler := HandlerInfo(false, keeps);
      Delivered(tokens, FirstRewritten(h), h)[i] == if keeps then tokens[i] else inner
  {
    U.StripPair(mark, inner, "");
    assert tokens[i] + "" == tokens[i] && inner + U.Stripped("") == inner;
    RawStays(if keeps then tokens[i] else inner);
  }

  lemma RawStays(s: string)
    requires U.Raw(s)
    ensures U.Unescaped(s) == s
  {
    U.PassTail(s, 0);
    U.SqueezedRaw(s);
    assert s[0..] == s;
  }

  /** Variables are substituted before the line is split again: a value of several words gives several arguments. */
  lemma ValueSplits(vars: seq<Variable>, command: string, v: Variable, h: Handler)
    requires IsToken(command) && '$' !in command && !h.isSet
    requires FirstMatch(vars, v.name) == Some(v) && '$' !in v.name[1..]
    requires v.value != "" && v.value[|v.value| - 1] != '\\'
    ensures Substituted(vars, [command, v.name], h) == [command] + Split(v.value)
  {
    var argv := [command, v.name];
    assert argv[1..] == [v.name] && Join([v.name]) == v.name;
    assert |v.name| > 1 ==> v.name[1] in v.name[1..];
    ExpandPlain(vars, "", command + " ", v.name);
    assert (command + " ") + v.name == command + " " + v.name && "" + (command + " ") == command + " ";
    InsertedVerbatim(vars, command + " ", v.name);
    assert v.name[|v.name|..] == "" && (command + " ") + v.value + "" == command + " " + v.value;
    SplitFirst(command, v.value);
  }
}
