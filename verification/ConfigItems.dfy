/** The lines of a configuration file, well nested or not: what `read_config` makes of any list of
    commands, comments, opening and closing lines, and when it reports success. */
module ConfigItems {
  import opened Tokens
  import opened ConfigReader

  /** What a line, or with its brace a few lines, can be. Every item carries its indentation; an
      opening brace stands on the line of its header or, behind some blank lines, on one of its own. */
  datatype Item =
    | LeafLine(indent: string, words: seq<string>)
    | OpenLine(indent: string, header: seq<string>, sameLine: bool, blanks: nat)
    | CloseLine(indent: string)
    | CommentLine(text: string)

  // ---- printing ----

  function PrintItem(it: Item): seq<string> {
    match it
    case CommentLine(text) => [text]
    case LeafLine(indent, words) => if words == [] then [] else [indent + Join(words)]
    case OpenLine(indent, header, sameLine, blanks) =>
      if header == [] then []
      else if sameLine then [indent + (Join(header) + " {")]
      else [indent + Join(header)] + BraceLines(indent, blanks)
    case CloseLine(indent) => [indent + "}"]
  }

  function PrintItems(items: seq<Item>): seq<string> {
    if items == [] then [] else PrintItem(items[0]) + PrintItems(items[1..])
  }

  function BraceLines(indent: string, blanks: nat): seq<string> {
    if blanks == 0 then [indent + "{"] else [""] + BraceLines(indent, blanks - 1)
  }

  // ---- well-formed items ----

  predicate IsBlank(s: string) {
    forall i :: 0 <= i < |s| ==> IsSpace(s[i])
  }

  /** Words that survive being written on a line of their own: the line is no comment, keeps its
      last character when trimmed, and is not continued. */
  predicate IsLine(words: seq<string>) {
    && IsNormal(words)
    && words[0][0] != '#'
    && !IsSpace(LastChar(words)) && LastChar(words) != '\\'
  }

  function LastChar(words: seq<string>): char
    requires words != [] && words[|words| - 1] != ""
  {
    var w := words[|words| - 1];
    w[|w| - 1]
  }

  /** The headers around a line: `paths[0]` holds the words of all of them, `paths[1]` those of all but
      the innermost, and so on. */
  function Top(paths: seq<seq<string>>): seq<string> {
    if paths == [] then [] else paths[0]
  }

  predicate ItemOk(path: seq<string>, it: Item) {
    match it
    case CommentLine(text) => !Continues(text) && Skipped(Trim(text))
    case LeafLine(indent, words) =>
      IsBlank(indent) && IsLine(words) && words[|words| - 1] != "{" && words[|words| - 1] != "}"
    case OpenLine(indent, header, sameLine, _) =>
      && IsBlank(indent) && IsLine(header) && (forall w :: w in header ==> IsToken(w))
      && path + header != ["<commands>"]
      && (!sameLine ==> LastChar(header) != '{' && LastChar(header) != '}')
    case CloseLine(indent) => IsBlank(indent)
  }

  /** The headers around the next line. */
  function Enter(paths: seq<seq<string>>, it: Item): seq<seq<string>> {
    match it
    case OpenLine(_, header, _, _) => [Top(paths) + header] + paths
    case CloseLine(_) => if paths == [] then [] else paths[1..]
    case _ => paths
  }

  predicate ItemsOk(paths: seq<seq<string>>, items: seq<Item>)
    decreases |items|
  {
    items == [] || (ItemOk(Top(paths), items[0]) && ItemsOk(Enter(paths, items[0]), items[1..]))
  }

  // ---- what the reader should do ----

  /** The effect of one item: commands and blocks get the words of all headers around them in front. */
  function Do(exec: Exec, r: Reader, paths: seq<seq<string>>, it: Item): Reader {
    match it
    case CommentLine(_) => r
    case LeafLine(_, words) =>
      if words == [] then r else RunCommand(exec, r, Top(paths) + words, Join(Top(paths) + words))
    case OpenLine(_, header, _, _) => if header == [] then r else OpenBlock(r, Join(Top(paths) + header))
    case CloseLine(_) => CloseBlock(r)
  }

  function DoAll(exec: Exec, r: Reader, paths: seq<seq<string>>, items: seq<Item>): Reader
    decreases |items|
  {
    if items == [] then r else DoAll(exec, Do(exec, r, paths, items[0]), Enter(paths, items[0]), items[1..])
  }

  /** The reader stands inside the blocks of `path`, whose words are all closed tokens. */
  ghost predicate Inside(stack: seq<string>, path: seq<string>) {
    && (forall w :: w in path ==> IsToken(w)) && path != ["<commands>"]
    && (if path == [] then stack == [] else stack != [] && stack[0] == Join(path))
  }

  /** The whole block stack is that of the headers. */
  ghost predicate Framed(stack: seq<string>, paths: seq<seq<string>>)
    decreases |paths|
  {
    && Inside(stack, Top(paths)) && |stack| == |paths|
    && (paths != [] ==> Top(paths) != [] && Framed(stack[1..], paths[1..]))
  }

  // ---- lines and tokens ----

  lemma {:induction false} JoinAppend(a: seq<string>, b: seq<string>)
    requires a != [] && b != []
    ensures Join(a + b) == Join(a) + " " + Join(b)
  {
    if |a| == 1 {
      assert (a + b)[1..] == b;
    } else {
      assert (a + b)[1..] == a[1..] + b;
      JoinAppend(a[1..], b);
    }
  }

  lemma {:induction false} JoinShape(words: seq<string>)
    requires IsNormal(words)
    ensures Join(words) != "" && Join(words)[0] == words[0][0] && Join(words)[|Join(words)| - 1] == LastChar(words)
    ensures |words| > 1 ==> ' ' in Join(words)
  {
    if |words| > 1 {
      assert forall i :: 0 <= i < |words[1..]| ==> words[1..][i] == words[i + 1];
      JoinShape(words[1..]);
      var s := words[0] + " " + Join(words[1..]);
      assert s[|words[0]|] == ' ';
    }
  }

  lemma {:induction false} TrimIndented(indent: string, s: string)
    requires IsBlank(indent) && s != "" && !IsSpace(s[0]) && !IsSpace(s[|s| - 1])
    ensures Trim(indent + s) == s
    decreases |indent|
  {
    if indent == "" {
      assert indent + s == s && Spaces(s) == 0 && s[0..] == s;
    } else {
      assert (indent + s)[1..] == indent[1..] + s;
      assert Spaces(indent + s) == 1 + Spaces(indent[1..] + s);
      assert (indent + s)[Spaces(indent + s)..] == (indent[1..] + s)[Spaces(indent[1..] + s)..];
      TrimIndented(indent[1..], s);
    }
  }

  /** What the reader makes of an indented line. */
  lemma LineTaken(indent: string, s: string, rest: seq<string>)
    requires IsBlank(indent) && s != "" && !IsSpace(s[0]) && !IsSpace(s[|s| - 1])
    requires s[0] != '#' && s[|s| - 1] != '\\'
    ensures !Skipped(s)
    ensures TakeLine([indent + s] + rest)
         == var b := if EndsInBrace(s) then 0 else DetectBrace(rest); (s, b, rest[b..])
  {
    var lines := [indent + s] + rest;
    TrimIndented(indent, s);
    assert lines[0][|lines[0]| - 1] == s[|s| - 1];
    assert lines[1..] == rest;
  }

  /** A command word or header behind its path tokenizes to exactly the words. */
  lemma ExpandedSplits(stack: seq<string>, path: seq<string>, words: seq<string>)
    requires Inside(stack, path) && IsNormal(words)
    ensures ExpandLine(stack, Join(words), false) == Join(path + words)
    ensures Split(Join(path + words)) == path + words && IsNormal(path + words)
  {
    assert IsNormal(path + words) by {
      forall i | 0 <= i < |path + words| - 1
        ensures IsToken((path + words)[i])
      {
        if i < |path| { assert (path + words)[i] in path; } else { assert (path + words)[i] == words[i - |path|]; }
      }
    }
    SplitJoin(path + words);
    if path == [] {
      assert path + words == words;
      assert "" + Join(words) + "" == Join(words);
    } else {
      JoinAppend(path, words);
      assert Join(path) + " " + Join(words) + "" == Join(path) + " " + Join(words);
    }
  }

  /** No block but a top-level one of that very name is taken for a `<commands>` block. */
  lemma NotCommandsBlock(path: seq<string>)
    requires path != [] && (forall w :: w in path ==> IsToken(w)) && path != ["<commands>"]
    ensures Join(path) != "<commands>"
  {
    if |path| == 1 {
      assert path == [path[0]];
    } else {
      assert IsNormal(path) by { assert forall i :: 0 <= i < |path| ==> path[i] in path; }
      JoinShape(path);
      assert ' ' !in "<commands>";
    }
  }

  lemma BraceIsToken(c: char)
    requires c == '{' || c == '}'
    ensures IsToken([c])
  {
    assert Feed(CLEAR, c) == CLEAR && [c][1..] == "";
    assert TokenLength(CLEAR, "") == 0 && FeedAll(CLEAR, "") == CLEAR;
  }

  // ---- what the reader does with each kind of line ----

  /** A line without a brace behind it. */
  lemma LineReads(exec: Exec, indent: string, s: string, rest: seq<string>, r: Reader)
    requires IsBlank(indent) && s != "" && !IsSpace(s[0]) && !IsSpace(s[|s| - 1])
    requires s[0] != '#' && s[|s| - 1] != '\\' && (EndsInBrace(s) || DetectBrace(rest) == 0)
    ensures Read(exec, [indent + s] + rest, r) == Read(exec, rest, Act(exec, r, ExpandLine(r.stack, s, false)))
  {
    LineTaken(indent, s, rest);
    ReadStep(exec, [indent + s] + rest, r);
    assert rest[0..] == rest;
  }

  /** What the words of a line ask for, behind the path. */
  function ActionOfWords(argv: seq<string>): Action
    requires argv != []
  {
    if |argv| > 1 && argv[|argv| - 1] == "{" then Open(Join(argv[..|argv| - 1]))
    else if argv[|argv| - 1] == "}" then Close
    else Command(argv)
  }

  lemma WordsAct(stack: seq<string>, path: seq<string>, words: seq<string>)
    requires Inside(stack, path) && IsNormal(words)
    ensures ExpandLine(stack, Join(words), false) == Join(path + words)
    ensures ActionOf(stack, Join(path + words)) == ActionOfWords(path + words)
  {
    ExpandedSplits(stack, path, words);
    if path != [] { NotCommandsBlock(path); }
    SplitAct(stack, Join(path + words), path + words);
  }

  lemma SplitAct(stack: seq<string>, expanded: string, argv: seq<string>)
    requires argv != [] && Split(expanded) == argv && (stack == [] || stack[0] != "<commands>")
    ensures ActionOf(stack, expanded) == ActionOfWords(argv)
  {
  }

  lemma HeaderWords(header: seq<string>)
    requires IsLine(header) && forall w :: w in header ==> IsToken(w)
    ensures IsNormal(header + ["{"]) && Join(header + ["{"]) == Join(header) + " {"
  {
    var words := header + ["{"];
    BraceIsToken('{');
    assert forall i :: 0 <= i < |header| ==> words[i] == header[i] && header[i] in header;
    JoinAppend(header, ["{"]);
    assert Join(header) + " " + "{" == Join(header) + " {";
  }

  /** The two ways to write an opening line give the same expanded line. */
  lemma OpenActs(stack: seq<string>, path: seq<string>, header: seq<string>)
    requires Inside(stack, path) && IsLine(header) && forall w :: w in header ==> IsToken(w)
    ensures ExpandLine(stack, Join(header), true) == ExpandLine(stack, Join(header) + " {", false)
    ensures ActionOf(stack, ExpandLine(stack, Join(header) + " {", false)) == Open(Join(path + header))
  {
    hide ExpandLine, Join, Inside;
    HeaderWords(header);
    WordsAct(stack, path, header + ["{"]);
    var argv := path + (header + ["{"]);
    assert argv[|argv| - 1] == "{" && argv[..|argv| - 1] == path + header;
    BraceAdded(stack, Join(header));
  }

  lemma BraceAdded(stack: seq<string>, line: string)
    ensures ExpandLine(stack, line, true) == ExpandLine(stack, line + " {", false)
  {
    var front := if stack == [] then "" else stack[0] + " ";
    assert front + line + " {" == front + (line + " {") + "";
  }

  lemma {:induction false} FindsBrace(indent: string, blanks: nat, rest: seq<string>)
    requires IsBlank(indent)
    ensures DetectBrace(BraceLines(indent, blanks) + rest) == blanks + 1
    ensures (BraceLines(indent, blanks) + rest)[blanks + 1..] == rest
  {
    var lines := BraceLines(indent, blanks) + rest;
    if blanks == 0 {
      TrimIndented(indent, "{");
    } else {
      FindsBrace(indent, blanks - 1, rest);
      assert lines[1..] == BraceLines(indent, blanks - 1) + rest;
      assert lines[0] == "" && ""[0..] == "";
      assert lines[blanks + 1..] == lines[1..][blanks..];
    }
  }

  // ---- the reader on one item ----

  lemma LeafReads(exec: Exec, path: seq<string>, it: Item, rest: seq<string>, r: Reader)
    requires it.LeafLine? && ItemOk(path, it) && Inside(r.stack, path) && DetectBrace(rest) == 0
    ensures Read(exec, PrintItem(it) + rest, r) == Read(exec, rest, Do(exec, r, [path], it))
  {
    var words := it.words;
    JoinShape(words);
    LineReads(exec, it.indent, Join(words), rest, r);
    WordsAct(r.stack, path, words);
    assert (path + words)[|path + words| - 1] == words[|words| - 1];
  }

  lemma OpenReadsSameLine(exec: Exec, path: seq<string>, it: Item, rest: seq<string>, r: Reader)
    requires it.OpenLine? && it.sameLine && ItemOk(path, it) && Inside(r.stack, path)
    ensures Read(exec, PrintItem(it) + rest, r) == Read(exec, rest, OpenBlock(r, Join(path + it.header)))
  {
    var s := Join(it.header);
    OpenActs(r.stack, path, it.header);
    JoinShape(it.header);
    assert (s + " {")[0] == s[0] && (s + " {")[|s| + 1] == '{';
    LineReads(exec, it.indent, s + " {", rest, r);
  }

  lemma OpenReadsOwnLine(exec: Exec, path: seq<string>, it: Item, rest: seq<string>, r: Reader)
    requires it.OpenLine? && !it.sameLine && ItemOk(path, it) && Inside(r.stack, path)
    ensures Read(exec, PrintItem(it) + rest, r) == Read(exec, rest, OpenBlock(r, Join(path + it.header)))
  {
    var s, more := Join(it.header), BraceLines(it.indent, it.blanks) + rest;
    assert PrintItem(it) + rest == [it.indent + s] + more;
    OpenTaken(it, s, rest, more);
    ReadStep(exec, [it.indent + s] + more, r);
    OpenActs(r.stack, path, it.header);
  }

  lemma OpenTaken(it: Item, s: string, rest: seq<string>, more: seq<string>)
    requires it.OpenLine? && !it.sameLine && IsBlank(it.indent) && IsLine(it.header) && s == Join(it.header)
    requires LastChar(it.header) != '{' && LastChar(it.header) != '}' && more == BraceLines(it.indent, it.blanks) + rest
    ensures !Skipped(s) && TakeLine([it.indent + s] + more) == (s, it.blanks + 1, rest)
  {
    hide Join, DetectBrace, BraceLines;
    JoinShape(it.header);
    LineTaken(it.indent, s, more);
    FindsBrace(it.indent, it.blanks, rest);
  }

  /** A block opens with its path and header on the stack, in both layouts. */
  lemma OpenReads(exec: Exec, path: seq<string>, it: Item, rest: seq<string>, r: Reader)
    requires it.OpenLine? && ItemOk(path, it) && Inside(r.stack, path)
    ensures Read(exec, PrintItem(it) + rest, r) == Read(exec, rest, OpenBlock(r, Join(path + it.header)))
  {
    if it.sameLine {
      OpenReadsSameLine(exec, path, it, rest, r);
    } else {
      OpenReadsOwnLine(exec, path, it, rest, r);
    }
  }

  lemma CloseReads(exec: Exec, path: seq<string>, indent: string, rest: seq<string>, r: Reader)
    requires IsBlank(indent) && Inside(r.stack, path)
    ensures Read(exec, [indent + "}"] + rest, r) == Read(exec, rest, CloseBlock(r))
  {
    BraceIsToken('}');
    LineReads(exec, indent, "}", rest, r);
    WordsAct(r.stack, path, ["}"]);
    assert (path + ["}"])[|path + ["}"]| - 1] == "}" && Join(["}"]) == "}";
  }

  lemma ItemReads(exec: Exec, paths: seq<seq<string>>, it: Item, rest: seq<string>, r: Reader)
    requires ItemOk(Top(paths), it) && Inside(r.stack, Top(paths)) && DetectBrace(rest) == 0
    ensures Read(exec, PrintItem(it) + rest, r) == Read(exec, rest, Do(exec, r, paths, it))
  {
    match it
    case CommentLine(text) =>
      ReadStep(exec, [text] + rest, r);
      assert ([text] + rest)[1..] == rest && rest[0..] == rest;
    case LeafLine(_, _) => LeafReads(exec, Top(paths), it, rest, r);
    case OpenLine(_, _, _, _) => OpenReads(exec, Top(paths), it, rest, r);
    case CloseLine(indent) => CloseReads(exec, Top(paths), indent, rest, r);
  }

  lemma FrameKept(exec: Exec, paths: seq<seq<string>>, it: Item, r: Reader)
    requires ItemOk(Top(paths), it) && Framed(r.stack, paths)
    ensures Framed(Do(exec, r, paths, it).stack, Enter(paths, it))
  {
    if it.OpenLine? {
      var path := Top(paths) + it.header;
      var stack := [Join(path)] + r.stack;
      assert stack[1..] == r.stack && ([path] + paths)[1..] == paths;
      assert Inside(stack, path);
    }
  }

  /** No item is mistaken for the opening brace of a line in front of it. */
  lemma NoBraceInFront(path: seq<string>, it: Item, rest: seq<string>)
    requires ItemOk(path, it) && DetectBrace(rest) == 0
    ensures DetectBrace(PrintItem(it) + rest) == 0
  {
    match it
    case CommentLine(text) => assert ([text] + rest)[1..] == rest;
    case LeafLine(indent, words) =>
      JoinShape(words);
      TrimIndented(indent, Join(words));
      if |words| == 1 { assert Join(words) == words[0]; } else { assert ' ' !in "{"; }
    case OpenLine(indent, header, sameLine, _) =>
      JoinShape(header);
      var s := if sameLine then Join(header) + " {" else Join(header);
      assert s[|s| - 1] == if sameLine then '{' else LastChar(header);
      TrimIndented(indent, s);
      assert (PrintItem(it) + rest)[0] == indent + s;
      assert s != "{" by { if sameLine { assert |s| > 1; } }
    case CloseLine(indent) => TrimIndented(indent, "}");
  }

  lemma {:induction false} NoBraceInItems(paths: seq<seq<string>>, items: seq<Item>, rest: seq<string>)
    requires ItemsOk(paths, items) && DetectBrace(rest) == 0
    ensures DetectBrace(PrintItems(items) + rest) == 0
    decreases |items|
  {
    hide DetectBrace, PrintItem, Enter;
    if items == [] {
      assert PrintItems(items) + rest == rest;
    } else {
      var it, more := items[0], PrintItems(items[1..]) + rest;
      assert PrintItems(items) + rest == PrintItem(it) + more;
      NoBraceInItems(Enter(paths, it), items[1..], rest);
      NoBraceInFront(Top(paths), it, more);
    }
  }

  /** The reader does with any list of items what it should, in order, whether or not blocks match. */
  lemma {:induction false} ItemsRead(exec: Exec, paths: seq<seq<string>>, items: seq<Item>, rest: seq<string>,
      r: Reader)
    requires ItemsOk(paths, items) && Framed(r.stack, paths) && DetectBrace(rest) == 0
    ensures Read(exec, PrintItems(items) + rest, r) == Read(exec, rest, DoAll(exec, r, paths, items))
    decreases |items|
  {
    if items == [] {
      assert PrintItems(items) + rest == rest;
    } else {
      var more := PrintItems(items[1..]) + rest;
      assert PrintItems(items) + rest == PrintItem(items[0]) + more;
      NoBraceInItems(Enter(paths, items[0]), items[1..], rest);
      ItemReads(exec, paths, items[0], more, r);
      FrameKept(exec, paths, items[0], r);
      ItemsRead(exec, Enter(paths, items[0]), items[1..], rest, Do(exec, r, paths, items[0]));
    }
  }

  // ---- the verdict ----

  function Opens(items: seq<Item>): nat {
    if items == [] then 0 else Opens(items[..|items| - 1]) + if items[|items| - 1].OpenLine? then 1 else 0
  }

  function Closes(items: seq<Item>): nat {
    if items == [] then 0 else Closes(items[..|items| - 1]) + if items[|items| - 1].CloseLine? then 1 else 0
  }

  /** No closing brace is without an opening one in front of it. */
  ghost predicate NeverBelow(items: seq<Item>) {
    forall k :: 0 <= k <= |items| ==> Closes(items[..k]) <= Opens(items[..k])
  }

  /** What had happened when command number `i` was run. */
  function Before(t: Trace, i: nat): Trace
    requires i <= |t.log|
  {
    Trace(t.log[..i], set p | p in t.barResets && p <= i, set p | p in t.contextClears && p <= i)
  }

  /** Every command that was run succeeded or was deferred. */
  ghost predicate NoFailure(exec: Exec, t: Trace) {
    forall i :: 0 <= i < |t.log| ==> exec(Before(t, i), t.log[i]) != Failure
  }

  /** Borders are recorded with the number of commands run by then. */
  ghost predicate TraceOk(t: Trace) {
    (forall p :: p in t.barResets ==> 0 < p <= |t.log|) && (forall p :: p in t.contextClears ==> 0 < p <= |t.log|)
  }

  lemma BeforeAll(t: Trace)
    requires TraceOk(t)
    ensures Before(t, |t.log|) == t
  {
    assert t.log[..|t.log|] == t.log;
    assert (set p | p in t.barResets && p <= |t.log|) == t.barResets;
    assert (set p | p in t.contextClears && p <= |t.log|) == t.contextClears;
  }

  /** Borders leave what had happened before each command alone. */
  lemma BorderBefore(t: Trace, u: Trace, i: nat)
    requires i < |t.log| && u in {ResetBar(t), ClearContext(t)}
    ensures u.log == t.log && Before(u, i) == Before(t, i)
  {
  }

  lemma BorderVerdict(exec: Exec, t: Trace, u: Trace)
    requires TraceOk(t) && u in {ResetBar(t), ClearContext(t)}
    ensures TraceOk(u) && u.log == t.log && (NoFailure(exec, u) <==> NoFailure(exec, t))
  {
    forall i | 0 <= i < |t.log|
      ensures Before(u, i) == Before(t, i)
    {
      BorderBefore(t, u, i);
    }
  }

  lemma RunVerdict(exec: Exec, r: Reader, argv: seq<string>, expanded: string)
    requires TraceOk(r.trace)
    ensures var s := RunCommand(exec, r, argv, expanded);
      TraceOk(s.trace) && (NoFailure(exec, s.trace) <==> NoFailure(exec, r.trace) && exec(r.trace, argv) != Failure)
  {
    var t := r.trace;
    var u := RunCommand(exec, r, argv, expanded).trace;
    forall i | 0 <= i < |t.log|
      ensures Before(u, i) == Before(t, i) && u.log[i] == t.log[i]
    {
      assert u.log[..i] == t.log[..i];
    }
    BeforeAll(t);
    assert u.log[..|t.log|] == t.log[..|t.log|];
    assert Before(u, |t.log|) == t && u.log[|t.log|] == argv;
  }

  /** The last item of a list is done last. */
  lemma {:induction false} DoAllLast(exec: Exec, r: Reader, paths: seq<seq<string>>, items: seq<Item>, last: Item)
    ensures DoAll(exec, r, paths, items + [last])
         == Do(exec, DoAll(exec, r, paths, items), EnterAll(paths, items), last)
    ensures EnterAll(paths, items + [last]) == Enter(EnterAll(paths, items), last)
    decreases |items|
  {
    if items == [] {
      assert items + [last] == [last] && [last][1..] == [];
    } else {
      assert (items + [last])[1..] == items[1..] + [last];
      DoAllLast(exec, Do(exec, r, paths, items[0]), Enter(paths, items[0]), items[1..], last);
    }
  }

  function EnterAll(paths: seq<seq<string>>, items: seq<Item>): seq<seq<string>>
    decreases |items|
  {
    if items == [] then paths else EnterAll(Enter(paths, items[0]), items[1..])
  }

  /** What is true of the reader after a list of items, starting afresh. */
  ghost predicate Judged(exec: Exec, items: seq<Item>, r: Reader) {
    && TraceOk(r.trace) && (r.ok <==> NoFailure(exec, r.trace) && NeverBelow(items))
    && (NeverBelow(items) ==> |r.stack| == Opens(items) - Closes(items))
  }

  lemma NeverBelowLast(items: seq<Item>, last: Item)
    ensures NeverBelow(items + [last]) <==> NeverBelow(items) && Closes(items + [last]) <= Opens(items + [last])
    ensures Closes(items + [last]) == Closes(items) + if last.CloseLine? then 1 else 0
    ensures Opens(items + [last]) == Opens(items) + if last.OpenLine? then 1 else 0
  {
    var all := items + [last];
    assert all[..|items|] == items && all[..|all|] == all;
    assert forall k :: 0 <= k <= |items| ==> all[..k] == items[..k];
  }

  lemma JudgedNext(exec: Exec, items: seq<Item>, r: Reader, paths: seq<seq<string>>, last: Item)
    requires Judged(exec, items, r) && (last.OpenLine? ==> last.header != [])
    ensures Judged(exec, items + [last], Do(exec, r, paths, last))
  {
    NeverBelowLast(items, last);
    assert NeverBelow(items) ==> Closes(items) <= Opens(items) by { assert items[..|items|] == items; }
    match last
    case CommentLine(_) =>
    case LeafLine(_, words) =>
      if words != [] {
        RunVerdict(exec, r, Top(paths) + words, Join(Top(paths) + words));
      }
    case OpenLine(_, header, _, _) =>
      BorderVerdict(exec, r.trace, ResetBar(r.trace));
    case CloseLine(_) =>
      BorderVerdict(exec, r.trace, ResetBar(r.trace));
      BorderVerdict(exec, r.trace, ClearContext(r.trace));
      BorderVerdict(exec, ResetBar(r.trace), ClearContext(ResetBar(r.trace)));
  }

  lemma {:induction false} ItemsOkOpens(paths: seq<seq<string>>, items: seq<Item>, i: nat)
    requires ItemsOk(paths, items) && i < |items| && items[i].OpenLine?
    ensures items[i].header != []
    decreases |items|
  {
    if i > 0 {
      ItemsOkOpens(Enter(paths, items[0]), items[1..], i - 1);
    }
  }

  lemma {:induction false} AllJudged(exec: Exec, items: seq<Item>)
    requires forall i :: 0 <= i < |items| && items[i].OpenLine? ==> items[i].header != []
    ensures Judged(exec, items, DoAll(exec, START, [], items))
  {
    if items != [] {
      var init, last := items[..|items| - 1], items[|items| - 1];
      AllJudged(exec, init);
      DoAllLast(exec, START, [], init, last);
      JudgedNext(exec, init, DoAll(exec, START, [], init), EnterAll([], init), last);
      assert items == init + [last];
    }
  }

  /** When a file loads successfully: exactly if no command failed and no closing brace is without an
      opening one in front of it. Blocks left open at the end do not matter; they are what is left on
      the stack. */
  lemma SuccessIff(exec: Exec, items: seq<Item>)
    requires ItemsOk([], items)
    ensures var r := Read(exec, PrintItems(items), START);
      r.ok <==> NoFailure(exec, r.trace) && NeverBelow(items)
    ensures var r := Read(exec, PrintItems(items), START);
      NeverBelow(items) ==> |r.stack| == Opens(items) - Closes(items)
  {
    ItemsRead(exec, [], items, [], START);
    assert PrintItems(items) + [] == PrintItems(items);
    forall i | 0 <= i < |items| && items[i].OpenLine?
      ensures items[i].header != []
    {
      ItemsOkOpens([], items, i);
    }
    AllJudged(exec, items);
  }

  /** Taking closing lines off the end of a file in which none is too many never changes the verdict. */
  lemma {:induction false} CutClosings(exec: Exec, items: seq<Item>, k: nat)
    requires ItemsOk([], items) && NeverBelow(items) && k <= |items|
    requires forall i :: k <= i < |items| ==> items[i].CloseLine?
    ensures DoAll(exec, START, [], items).ok == DoAll(exec, START, [], items[..k]).ok
  {
    if k == |items| {
      assert items[..k] == items;
    } else {
      var init, last := items[..|items| - 1], items[|items| - 1];
      assert items == init + [last] && init[..k] == items[..k];
      PrefixOk([], items, |items| - 1);
      NeverBelowLast(init, last);
      CutOne(exec, init, last);
      CutClosings(exec, init, k);
    }
  }

  lemma CutOne(exec: Exec, init: seq<Item>, last: Item)
    requires ItemsOk([], init) && NeverBelow(init + [last]) && last.CloseLine?
    ensures DoAll(exec, START, [], init + [last]).ok == DoAll(exec, START, [], init).ok
  {
    forall i | 0 <= i < |init| && init[i].OpenLine?
      ensures init[i].header != []
    {
      ItemsOkOpens([], init, i);
    }
    var items := init + [last];
    NeverBelowLast(init, last);
    AllJudged(exec, init);
    DoAllLast(exec, START, [], init, last);
    assert Closes(items[..|items|]) <= Opens(items[..|items|]) && items[..|items|] == items;
  }

  /** So a block that is never closed goes unnoticed, in any file: the verdict is that of the file with
      its closing lines. */
  lemma UnclosedUnnoticed(exec: Exec, items: seq<Item>, k: nat)
    requires ItemsOk([], items) && NeverBelow(items) && k <= |items|
    requires forall i :: k <= i < |items| ==> items[i].CloseLine?
    ensures Read(exec, PrintItems(items), START).ok == Read(exec, PrintItems(items[..k]), START).ok
  {
    PrefixOk([], items, k);
    CutClosings(exec, items, k);
    ItemsRead(exec, [], items, [], START);
    ItemsRead(exec, [], items[..k], [], START);
    assert PrintItems(items) + [] == PrintItems(items) && PrintItems(items[..k]) + [] == PrintItems(items[..k]);
  }

  lemma {:induction false} PrefixOk(paths: seq<seq<string>>, items: seq<Item>, k: nat)
    requires ItemsOk(paths, items) && k <= |items|
    ensures ItemsOk(paths, items[..k])
    decreases |items|
  {
    if k > 0 {
      assert items[..k][1..] == items[1..][..k - 1];
      PrefixOk(Enter(paths, items[0]), items[1..], k - 1);
    }
  }
}
