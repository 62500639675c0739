/** How any arguments can be written on one line of a configuration file, so that a command's handler gets
    exactly them. */
module ConfigQuoting {
  import opened Tokens
  import opened Variables
  import opened ConfigCommand
  import U = Unquote
  import W = WorkspaceCommand
  import R = ConfigReader
  import I = ConfigItems

  /** A character inside double quotes as unescaping takes it back: newlines become an escape, double
      quotes and backslashes get a backslash. */
  function Shown(c: char): string {
    if c == '\n' then "\\n" else W.Quoted(c)
  }

  /** The same on the line, before substitution: dollar signs are doubled. */
  function Written(c: char): string {
    if c == '$' then "$$" else Shown(c)
  }

  function Encoded(name: string): string {
    if name == "" then "" else Encoded(name[..|name| - 1]) + Shown(name[|name| - 1])
  }

  function Protected(name: string): string {
    if name == "" then "" else Protected(name[..|name| - 1]) + Written(name[|name| - 1])
  }

  function InQuotes(s: string): string {
    "\"" + s + "\""
  }

  /** The line with each argument in double quotes. */
  function Line(command: string, names: seq<string>): string {
    if names == [] then command
    else Line(command, names[..|names| - 1]) + " " + InQuotes(Protected(names[|names| - 1]))
  }

  /** Its words as written. */
  function WrittenWords(command: string, names: seq<string>): seq<string> {
    if names == [] then [command]
    else WrittenWords(command, names[..|names| - 1]) + [InQuotes(Protected(names[|names| - 1]))]
  }

  /** Its words once substitution has undone the doubling. */
  function Quoted(command: string, names: seq<string>): seq<string> {
    if names == [] then [command]
    else Quoted(command, names[..|names| - 1]) + [InQuotes(Encoded(names[|names| - 1]))]
  }

  // ---- the line is one line, and these are its words ----

  /** Text that double quotes protect: it neither ends the token nor closes the quotes. */
  predicate ReadThrough(s: string) {
    FeedAll(W.IN_STRING, s) == W.IN_STRING && TokenLength(W.IN_STRING, s) == |s|
  }

  lemma ReadThroughAppend(a: string, b: string)
    requires ReadThrough(a) && ReadThrough(b)
    ensures ReadThrough(a + b)
  {
    W.FeedAppend(W.IN_STRING, a, b);
    W.LengthAppend(W.IN_STRING, a, b);
  }

  lemma PairReadThrough(c: char, d: char)
    requires (c == '\\' && d != '\\') || (c == '$' && d == '$')
    ensures ReadThrough([c] + [d])
  {
    W.FeedFirst(W.IN_STRING, c, [d]);
    W.FeedOne(Feed(W.IN_STRING, c), d);
  }

  lemma ShownReadThrough(c: char)
    ensures ReadThrough(Shown(c))
  {
    if c == '\n' {
      PairReadThrough('\\', 'n');
      assert Shown(c) == ['\\'] + ['n'];
    } else {
      W.QuotedInString(c);
    }
  }

  lemma WrittenReadThrough(c: char)
    ensures ReadThrough(Written(c))
  {
    if c == '$' {
      PairReadThrough('$', '$');
      assert Written(c) == ['$'] + ['$'];
    } else {
      ShownReadThrough(c);
    }
  }

  lemma {:induction false} EncodedReadThrough(name: string)
    ensures ReadThrough(Encoded(name))
  {
    if name != "" {
      EncodedReadThrough(name[..|name| - 1]);
      ShownReadThrough(name[|name| - 1]);
      ReadThroughAppend(Encoded(name[..|name| - 1]), Shown(name[|name| - 1]));
    }
  }

  lemma {:induction false} ProtectedReadThrough(name: string)
    ensures ReadThrough(Protected(name)) && '\n' !in Protected(name)
  {
    if name != "" {
      ProtectedReadThrough(name[..|name| - 1]);
      WrittenReadThrough(name[|name| - 1]);
      ReadThroughAppend(Protected(name[..|name| - 1]), Written(name[|name| - 1]));
    }
  }

  lemma {:induction false} JoinLast(words: seq<string>, w: string)
    requires words != []
    ensures Join(words + [w]) == Join(words) + " " + w
  {
    if |words| > 1 {
      JoinLast(words[1..], w);
      assert (words + [w])[1..] == words[1..] + [w];
      assert words[0] + " " + (Join(words[1..]) + " " + w) == words[0] + " " + Join(words[1..]) + " " + w;
    }
  }

  ghost predicate AllTokens(words: seq<string>) {
    words != [] && forall i :: 0 <= i < |words| ==> IsToken(words[i])
  }

  lemma {:induction false} WordsOfLine(command: string, names: seq<string>)
    requires IsToken(command)
    ensures AllTokens(WrittenWords(command, names)) && Join(WrittenWords(command, names)) == Line(command, names)
    ensures '\n' !in command ==> '\n' !in Line(command, names)
  {
    if names != [] {
      var init, last := names[..|names| - 1], names[|names| - 1];
      WordsOfLine(command, init);
      ProtectedReadThrough(last);
      W.QuotedIsToken(Protected(last));
      JoinLast(WrittenWords(command, init), InQuotes(Protected(last)));
    }
  }

  lemma {:induction false} QuotedTokens(command: string, names: seq<string>)
    requires IsToken(command)
    ensures AllTokens(Quoted(command, names))
  {
    if names != [] {
      QuotedTokens(command, names[..|names| - 1]);
      EncodedReadThrough(names[|names| - 1]);
      W.QuotedIsToken(Encoded(names[|names| - 1]));
    }
  }

  lemma SplitTokens(words: seq<string>)
    requires AllTokens(words)
    ensures Split(Join(words)) == words
  {
    SplitJoin(words);
  }

  // ---- substitution ----

  lemma NotEscapedBehind(done: string, c: char)
    requires !Variables.Escaped(done)
    ensures !Variables.Escaped(done + Shown(c))
  {
  }

  lemma {:induction false} NotEscapedBehindName(done: string, name: string)
    requires !Variables.Escaped(done)
    ensures !Variables.Escaped(done + Encoded(name))
  {
    if name == "" {
      assert done + Encoded(name) == done;
    } else {
      var init, c := name[..|name| - 1], name[|name| - 1];
      NotEscapedBehindName(done, init);
      NotEscapedBehind(done + Encoded(init), c);
      assert (done + Encoded(init)) + Shown(c) == done + Encoded(name);
    }
  }

  lemma ExpandWritten(vars: seq<Variable>, done: string, c: char, rest: string)
    requires !Variables.Escaped(done)
    ensures Expand(vars, done, Written(c) + rest) == Expand(vars, done + Shown(c), rest)
  {
    if c == '$' {
      assert "$$" + rest == ['$', '$'] + rest;
      ExpandPair(vars, done, rest);
    } else {
      ExpandPlain(vars, done, Shown(c), rest);
    }
  }

  /** Substitution undoes the doubling, whatever is defined: the dollar signs that the loop meets are
      never behind a single backslash. */
  lemma {:induction false} ExpandProtectedName(vars: seq<Variable>, done: string, name: string, rest: string)
    requires !Variables.Escaped(done)
    ensures Expand(vars, done, Protected(name) + rest) == Expand(vars, done + Encoded(name), rest)
  {
    if name == "" {
      assert Protected(name) + rest == rest && done + Encoded(name) == done;
    } else {
      var init, c := name[..|name| - 1], name[|name| - 1];
      assert Protected(name) + rest == Protected(init) + (Written(c) + rest);
      ExpandProtectedName(vars, done, init, Written(c) + rest);
      NotEscapedBehindName(done, init);
      ExpandWritten(vars, done + Encoded(init), c, rest);
      assert (done + Encoded(init)) + Shown(c) == done + Encoded(name);
    }
  }

  lemma ExpandQuoted(vars: seq<Variable>, done: string, name: string, rest: string)
    ensures Expand(vars, done, " \"" + (Protected(name) + ("\"" + rest)))
         == Expand(vars, done + " " + InQuotes(Encoded(name)), rest)
  {
    ExpandPlain(vars, done, " \"", Protected(name) + ("\"" + rest));
    ExpandProtectedName(vars, done + " \"", name, "\"" + rest);
    ExpandPlain(vars, done + " \"" + Encoded(name), "\"", rest);
    assert done + " \"" + Encoded(name) + "\"" == done + " " + InQuotes(Encoded(name));
  }

  lemma {:induction false} ExpandLine(vars: seq<Variable>, command: string, names: seq<string>, rest: string)
    requires '$' !in command && command != ""
    ensures Quoted(command, names) != []
    ensures Expand(vars, "", Line(command, names) + rest) == Expand(vars, Join(Quoted(command, names)), rest)
  {
    if names == [] {
      ExpandPlain(vars, "", command, rest);
      assert "" + command == command;
    } else {
      var init, last := names[..|names| - 1], names[|names| - 1];
      var tail := " \"" + (Protected(last) + ("\"" + rest));
      LineRegrouped(Line(command, init), Protected(last), rest);
      ExpandLine(vars, command, init, tail);
      ExpandQuoted(vars, Join(Quoted(command, init)), last, rest);
      JoinLast(Quoted(command, init), InQuotes(Encoded(last)));
    }
  }

  lemma LineRegrouped(line: string, shown: string, rest: string)
    ensures (line + " " + InQuotes(shown)) + rest == line + (" \"" + (shown + ("\"" + rest)))
  {
  }

  // ---- stripping and unescaping ----

  lemma StripShown(c: char, rest: string)
    ensures U.Strip(W.QUOTED, Shown(c) + rest) == Shown(c) + U.Strip(W.QUOTED, rest)
  {
    if c == '\n' {
      var s := Shown(c) + rest;
      assert s[1..] == ['n'] + rest && (['n'] + rest)[1..] == rest;
      assert U.Pass(U.Pass(W.QUOTED, '\\'), 'n') == W.QUOTED;
      assert U.Strip(U.Pass(W.QUOTED, '\\'), ['n'] + rest) == ['n'] + U.Strip(W.QUOTED, rest);
    } else {
      W.StripQuoted(c, rest);
    }
  }

  lemma {:induction false} StripEncoded(name: string, rest: string)
    ensures U.Strip(W.QUOTED, Encoded(name) + rest) == Encoded(name) + U.Strip(W.QUOTED, rest)
  {
    if name == "" {
      assert Encoded(name) + rest == rest;
    } else {
      var init, c := Encoded(name[..|name| - 1]), name[|name| - 1];
      Regrouped(init, Shown(c), rest);
      StripEncoded(name[..|name| - 1], Shown(c) + rest);
      StripShown(c, rest);
      Regrouped(init, Shown(c), U.Strip(W.QUOTED, rest));
    }
  }

  lemma Regrouped(a: string, b: string, c: string)
    ensures (a + b) + c == a + (b + c)
  {
  }

  lemma ArgumentStripped(name: string)
    ensures U.Stripped(InQuotes(Encoded(name))) == Encoded(name)
  {
    assert InQuotes(Encoded(name))[1..] == Encoded(name) + "\"";
    StripEncoded(name, "\"");
    assert "\""[1..] == "" && U.Strip(W.QUOTED, "\"") == "";
  }

  lemma ShownDecodes(c: char)
    requires c != '\0'
    ensures U.OnlySimple(Shown(c)) && U.Decode(Shown(c)) == [c]
  {
    if c == '\n' { assert Shown(c)[2..] == ""; } else { W.QuotedDecodes(c); }
  }

  lemma {:induction false} EncodedDecodes(name: string)
    requires '\0' !in name
    ensures U.OnlySimple(Encoded(name)) && U.Decode(Encoded(name)) == name
  {
    if name != "" {
      var init, c := name[..|name| - 1], name[|name| - 1];
      assert name == init + [c] && c in name;
      EncodedDecodes(init);
      ShownDecodes(c);
      W.DecodeAppend(Encoded(init), Shown(c));
    }
  }

  lemma ArgumentDelivered(name: string, h: Handler)
    requires !h.keepsQuotes && '\0' !in name
    ensures Word(InQuotes(Encoded(name)), true, h) == name
  {
    ArgumentStripped(name);
    EncodedDecodes(name);
    U.UnescapedSimple(Encoded(name));
    assert InQuotes(Encoded(name))[0] == '"';
  }

  lemma DeliveredLast(tokens: seq<string>, t: string, h: Handler)
    requires tokens != []
    ensures Delivered(tokens + [t], 1, h) == Delivered(tokens, 1, h) + [Word(t, true, h)]
  {
  }

  lemma {:induction false} QuotedDelivered(command: string, names: seq<string>, h: Handler)
    requires !h.keepsQuotes && forall n :: n in names ==> '\0' !in n
    ensures Quoted(command, names) != [] && Delivered(Quoted(command, names), 1, h) == [command] + names
  {
    if names != [] {
      var init, last := names[..|names| - 1], names[|names| - 1];
      QuotedDelivered(command, init, h);
      DeliveredLast(Quoted(command, init), InQuotes(Encoded(last)), h);
      ArgumentDelivered(last, h);
      assert [command] + names == ([command] + init) + [last];
    }
  }

  /** Any arguments without NULs can be written on one line, in quotes, so that an ordinary handler gets
      exactly them, whatever variables are defined: the line splits into words that `config_command`
      joins again, substitutes, splits and unquotes. */
  lemma QuotedArgumentsArrive(vars: seq<Variable>, command: string, names: seq<string>, h: Handler)
    requires IsToken(command) && '$' !in command && !h.isSet && !h.keepsQuotes
    requires forall n :: n in names ==> '\0' !in n
    ensures '\n' !in command ==> '\n' !in Line(command, names)
    ensures var argv := Split(Line(command, names));
      argv != [] && Delivered(Substituted(vars, argv, h), FirstRewritten(h), h) == [command] + names
  {
    WordsOfLine(command, names);
    SplitTokens(WrittenWords(command, names));
    ExpandLine(vars, command, names, "");
    assert Line(command, names) + "" == Line(command, names);
    QuotedTokens(command, names);
    SplitTokens(Quoted(command, names));
    QuotedDelivered(command, names, h);
  }

  /** The line stands in a file as it is: reading the file hands over exactly its words. */
  lemma LineIsRead(exec: R.Exec, command: string, names: seq<string>)
    requires IsToken(command) && command[0] != '#' && names != []
    ensures R.Read(exec, [Line(command, names)], R.START).trace.log == [Split(Line(command, names))]
  {
    var words := WrittenWords(command, names);
    WordsOfLine(command, names);
    SplitTokens(words);
    LastWord(command, names);
    var leaf := I.LeafLine("", words);
    I.ItemsRead(exec, [], [leaf], [], R.START);
    OneLeaf(exec, words);
  }

  lemma LastWord(command: string, names: seq<string>)
    requires IsToken(command) && names != [] && AllTokens(WrittenWords(command, names))
    ensures var words := WrittenWords(command, names);
      words[0] == command && |words[|words| - 1]| >= 2 && I.LastChar(words) == '"'
  {
    FirstWord(command, names);
  }

  lemma {:induction false} FirstWord(command: string, names: seq<string>)
    ensures WrittenWords(command, names) != [] && WrittenWords(command, names)[0] == command
  {
    if names != [] {
      FirstWord(command, names[..|names| - 1]);
    }
  }

  lemma OneLeaf(exec: R.Exec, words: seq<string>)
    requires words != []
    ensures I.PrintItems([I.LeafLine("", words)]) + [] == [Join(words)]
    ensures I.DoAll(exec, R.START, [], [I.LeafLine("", words)]).trace.log == [words]
  {
    var leaf := I.LeafLine("", words);
    assert [leaf][1..] == [] && "" + Join(words) == Join(words) && [] + words == words;
  }
}
