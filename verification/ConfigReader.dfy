/** Reading a configuration file: `read_config` runs a nested file as a sequence of flat commands. */
module ConfigReader {
  import opened Tokens

  // ---- lines ----

  /** `strip_whitespace`. */
  function Trim(s: string): string {
    TrimEnd(s[Spaces(s)..])
  }

  function TrimEnd(s: string): string {
    if s != "" && IsSpace(s[|s| - 1]) then TrimEnd(s[..|s| - 1]) else s
  }

  /** A line that goes on on the next: it ends in a backslash and is not a comment. */
  predicate Continues(line: string) {
    line != "" && line[|line| - 1] == '\\' && line[0] != '#'
  }

  /** `getline_with_cont`: the next logical line and the lines behind it. */
  function NextLine(lines: seq<string>): (string, seq<string>)
    requires lines != []
    decreases |lines|
  {
    if Continues(lines[0]) && |lines| > 1 then
      NextLine([lines[0][..|lines[0]| - 1] + lines[1]] + lines[2..])
    else (lines[0], lines[1..])
  }

  /** `detect_brace`: how many lines are consumed by blank lines and a line with just an opening
      brace; zero if something else comes first. */
  function DetectBrace(lines: seq<string>): (n: nat)
    ensures n <= |lines|
  {
    if lines == [] then 0
    else if Trim(lines[0]) == "" then
      var n := DetectBrace(lines[1..]);
      if n == 0 then 0 else n + 1
    else if Trim(lines[0]) == "{" then 1
    else 0
  }

  predicate Skipped(line: string) {
    line == "" || line[0] == '#'
  }

  predicate EndsInBrace(line: string) {
    line != "" && (line[|line| - 1] == '{' || line[|line| - 1] == '}')
  }

  /** `expand_line`: the line behind the block it stands in. */
  function ExpandLine(stack: seq<string>, line: string, addBrace: bool): string {
    (if stack == [] then "" else stack[0] + " ") + line + (if addBrace then " {" else "")
  }

  // ---- commands ----

  datatype Status = Success | Failure | Deferred

  /** What happened so far: the arguments of every command that reached its handler, and how many
      commands had been run whenever a block border unset `current_bar` or cleared
      `handler_context`. Before the first command neither is set, so unsetting it is no event. */
  datatype Trace = Trace(log: seq<seq<string>>, barResets: set<nat>, contextClears: set<nat>)

  function ResetBar(t: Trace): Trace {
    if t.log == [] then t else t.(barResets := t.barResets + {|t.log|})
  }

  function ClearContext(t: Trace): Trace {
    if t.log == [] then t else t.(contextClears := t.contextClears + {|t.log|})
  }

  /** What a command's handler answers; it may depend on everything that happened before. */
  type Exec = (Trace, seq<string>) -> Status

  /** `stack[0]` is the innermost block. `deferred` holds the lines put on the command queue. */
  datatype Reader = Reader(stack: seq<string>, trace: Trace, deferred: seq<string>, ok: bool)

  const NOTHING := Trace([], {}, {})

  const START := Reader([], NOTHING, [], true)

  /** What is done with a line: a command is run, a block opened or closed, or the line is refused. */
  datatype Action = Nothing | Command(argv: seq<string>) | Open(block: string) | Close | Refuse

  /** The part of `config_command` in front of the handlers, or, in a `<commands>` block,
      `config_commands_command`, whose table of handlers is empty. */
  function ActionOf(stack: seq<string>, expanded: string): Action {
    var argv := Split(expanded);
    if argv == [] then Nothing
    else if stack != [] && stack[0] == "<commands>" then (if argv[0] == "}" then Close else Refuse)
    else if |argv| > 1 && argv[|argv| - 1] == "{" then Open(Join(argv[..|argv| - 1]))
    else if argv[|argv| - 1] == "}" then Close
    else Command(argv)
  }

  function RunCommand(exec: Exec, r: Reader, argv: seq<string>, expanded: string): Reader {
    var status := exec(r.trace, argv);
    r.(trace := r.trace.(log := r.trace.log + [argv]),
       ok := r.ok && status != Failure,
       deferred := if status == Deferred then r.deferred + [expanded] else r.deferred)
  }

  /** `bar` blocks unset the current bar when they begin and when they end. */
  function Border(block: string, t: Trace): Trace {
    if block == "bar" then ResetBar(t) else t
  }

  function OpenBlock(r: Reader, block: string): Reader {
    r.(stack := [block] + r.stack, trace := Border(block, r.trace))
  }

  function CloseBlock(r: Reader): Reader {
    if r.stack == [] then r.(ok := false)
    else r.(stack := r.stack[1..], trace := ClearContext(Border(r.stack[0], r.trace)))
  }

  function Act(exec: Exec, r: Reader, expanded: string): Reader {
    match ActionOf(r.stack, expanded)
    case Nothing => r
    case Command(argv) => RunCommand(exec, r, argv, expanded)
    case Open(block) => OpenBlock(r, block)
    case Close => CloseBlock(r)
    case Refuse => r.(ok := false)
  }

  /** The reader from one logical line on: what `read_config` does, on values. */
  function Read(exec: Exec, lines: seq<string>, r: Reader): Reader {
    ReadLines(exec, lines, r)
  }

  function ReadLines(exec: Exec, lines: seq<string>, r: Reader): Reader
    decreases |lines|
  {
    if lines == [] then r
    else
      NextLineShrinks(lines);
      var (line, brace, rest) := TakeLine(lines);
      ReadLines(exec, rest, if Skipped(line) then r else Act(exec, r, ExpandLine(r.stack, line, brace > 0)))
  }

  /** The next logical line, trimmed; how many lines an opening brace behind it took; and the lines
      behind that. */
  function TakeLine(lines: seq<string>): (string, nat, seq<string>)
    requires lines != []
  {
    var (raw, rest) := NextLine(lines);
    var line := Trim(raw);
    var brace := if Skipped(line) || EndsInBrace(line) then 0 else DetectBrace(rest);
    (line, brace, rest[brace..])
  }

  lemma {:induction false} NextLineShrinks(lines: seq<string>)
    requires lines != []
    ensures |NextLine(lines).1| < |lines|
    decreases |lines|
  {
    if Continues(lines[0]) && |lines| > 1 {
      NextLineShrinks([lines[0][..|lines[0]| - 1] + lines[1]] + lines[2..]);
    }
  }

  // ---- the methods ----

  class File {
    const lines: seq<string>
    var pos: nat

    ghost predicate Valid()
      reads this
    {
      pos <= |lines|
    }

    ghost function Rest(): seq<string>
      reads this
      requires Valid()
    {
      lines[pos..]
    }

    constructor (lines: seq<string>)
      ensures this.lines == lines && Valid() && Rest() == lines
    {
      this.lines := lines;
      pos := 0;
    }

    /** `getline_with_cont`, when there is a line. */
    method GetLine() returns (line: string)
      requires Valid() && pos < |lines|
      modifies this
      ensures Valid() && old(pos) < pos && (line, Rest()) == NextLine(old(Rest()))
    {
      ghost var whole := NextLine(Rest());
      line := lines[pos];
      pos := pos + 1;
      assert [line] + lines[pos..] == old(Rest());
      while Continues(line) && pos < |lines|
        invariant old(pos) < pos <= |lines| && NextLine([line] + lines[pos..]) == whole
      {
        assert ([line] + lines[pos..])[1] == lines[pos] && ([line] + lines[pos..])[2..] == lines[pos + 1..];
        line := line[..|line| - 1] + lines[pos];
        pos := pos + 1;
      }
      assert ([line] + lines[pos..])[1..] == lines[pos..];
    }

    /** `detect_brace`: moves behind an opening brace, or nowhere. */
    method SkipBrace() returns (found: nat)
      requires Valid()
      modifies this
      ensures Valid() && found == DetectBrace(old(Rest())) && pos == old(pos) + found
    {
      var start := pos;
      found := 0;
      var n := 0;
      while pos < |lines|
        invariant pos == start + n <= |lines| && found == 0
        invariant DetectBrace(old(Rest()))
               == if DetectBrace(lines[pos..]) == 0 then 0 else n + DetectBrace(lines[pos..])
      {
        var line := Trim(lines[pos]);
        assert lines[pos..][1..] == lines[pos + 1..];
        pos := pos + 1;
        n := n + 1;
        if line != "" {
          if line == "{" {
            found := n;
          }
          break;
        }
      }
      if found == 0 {
        pos := start;
      }
    }
  }

  /** `read_config`: what happened, the deferred lines and the verdict. */
  method ReadConfig(exec: Exec, lines: seq<string>) returns (trace: Trace, deferred: seq<string>, success: bool)
    ensures var r := Read(exec, lines, START); trace == r.trace && deferred == r.deferred && success == r.ok
  {
    var file := new File(lines);
    var stack: seq<string> := [];
    trace, deferred, success := NOTHING, [], true;
    while file.pos < |file.lines|
      invariant fresh(file) && file.Valid()
      invariant Read(exec, file.Rest(), Reader(stack, trace, deferred, success)) == Read(exec, lines, START)
      decreases |file.lines| - file.pos
    {
      ReadStep(exec, file.Rest(), Reader(stack, trace, deferred, success));
      stack, trace, deferred, success := ReadOne(exec, file, stack, trace, deferred, success);
    }
    assert file.Rest() == [];
    ReadEnd(exec, Reader(stack, trace, deferred, success));
  }

  lemma ReadEnd(exec: Exec, r: Reader)
    ensures Read(exec, [], r) == r
  {
  }

  /** The body of the loop: one logical line. */
  method ReadOne(exec: Exec, file: File, stack: seq<string>, trace: Trace, deferred: seq<string>, success: bool)
    returns (stack': seq<string>, trace': Trace, deferred': seq<string>, success': bool)
    requires file.Valid() && file.pos < |file.lines|
    modifies file
    ensures file.Valid() && old(file.pos) < file.pos && file.Rest() == TakeLine(old(file.Rest())).2
    ensures Reader(stack', trace', deferred', success')
         == AfterLine(exec, old(file.Rest()), Reader(stack, trace, deferred, success))
  {
    var line, braceDetected := ReadLine(file);
    if line == "" || line[0] == '#' {
      return stack, trace, deferred, success;
    }
    var expanded := ExpandLine(stack, line, braceDetected > 0);
    stack', trace', deferred', success' := HandleLine(exec, stack, trace, deferred, success, expanded);
  }

  /** Getting a line, stripping it and looking for its brace. */
  method ReadLine(file: File) returns (line: string, braceDetected: nat)
    requires file.Valid() && file.pos < |file.lines|
    modifies file
    ensures file.Valid() && old(file.pos) < file.pos
    ensures (line, braceDetected, file.Rest()) == TakeLine(old(file.Rest()))
  {
    line := file.GetLine();
    line := Trim(line);
    braceDetected := 0;
    ghost var rest := file.Rest();
    if !Skipped(line) && line[|line| - 1] != '{' && line[|line| - 1] != '}' {
      braceDetected := file.SkipBrace();
    }
    assert file.Rest() == rest[braceDetected..];
  }

  lemma ReadStep(exec: Exec, lines: seq<string>, r: Reader)
    requires lines != []
    ensures Read(exec, lines, r) == Read(exec, TakeLine(lines).2, AfterLine(exec, lines, r))
  {
  }

  /** The reader after one logical line. */
  function AfterLine(exec: Exec, lines: seq<string>, r: Reader): Reader
    requires lines != []
  {
    var (line, brace, _) := TakeLine(lines);
    if Skipped(line) then r else Act(exec, r, ExpandLine(r.stack, line, brace > 0))
  }

  /** The switch over the result of a line. */
  method HandleLine(exec: Exec, stack: seq<string>, trace: Trace, deferred: seq<string>, success: bool,
      expanded: string)
    returns (stack': seq<string>, trace': Trace, deferred': seq<string>, success': bool)
    ensures Reader(stack', trace', deferred', success') == Act(exec, Reader(stack, trace, deferred, success), expanded)
  {
    stack', trace', deferred', success' := stack, trace, deferred, success;
    match ActionOf(stack, expanded) {
      case Nothing =>
      case Refuse =>
        success' := false;
      case Command(argv) =>
        var status := exec(trace, argv);
        trace' := trace.(log := trace.log + [argv]);
        if status == Failure {
          success' := false;
        } else if status == Deferred {
          deferred' := deferred + [expanded];
        }
      case Open(block) =>
        stack' := [block] + stack;
        if block == "bar" {
          trace' := ResetBar(trace);
        }
      case Close =>
        if stack == [] {
          success' := false;
        } else {
          if stack[0] == "bar" {
            trace' := ResetBar(trace);
          }
          stack' := stack[1..];
          trace' := ClearContext(trace');
        }
    }
  }
}
