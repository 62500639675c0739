/** What happens to the text of a command between the socket and `execute_command`: its lines are joined
    with semicolons. */
module IpcLines {
  import opened Options
  import W = WorkspaceCommand

  /** The text with every newline that ends a line replaced by a semicolon; `prev` is the character in
      front of it. Newlines behind newlines end no line. */
  function Joined(prev: char, s: string): (r: string)
    ensures |r| == |s|
  {
    seq(|s|, i requires 0 <= i < |s| => if EndsLine(prev, s, i) then ';' else s[i])
  }

  predicate EndsLine(prev: char, s: string, i: nat)
    requires i < |s|
  {
    s[i] == '\n' && (if i == 0 then prev else s[i - 1]) != '\n'
  }

  /** The text of a whole message. A newline at its beginning ends no line. */
  function Dispatched(s: string): string {
    Joined('\n', s)
  }

  // ---- the loop ----

  /** The text with its lines joined up to `from`, as it stands in the buffer. */
  ghost predicate JoinedUpTo(b: seq<char>, text: string, from: nat) {
    && |b| == |text| + 1 && b[|text|] == '\0' && from <= |text|
    && (forall i :: 0 <= i < from ==> b[i] == Dispatched(text)[i])
    && (forall i :: from <= i < |text| ==> b[i] == text[i])
    && (0 < from < |text| ==> text[from - 1] == '\n')
  }

  /** The line that begins at `start` and ends at `end`. */
  ghost predicate IsLine(text: string, from: nat, start: nat, end: nat) {
    && from <= start < end <= |text| && (end < |text| ==> text[end] == '\n')
    && (forall i :: from <= i < start ==> text[i] == '\n') && (forall i :: start <= i < end ==> text[i] != '\n')
  }

  /** `strtok` has found a line and put a NUL at its end. */
  ghost predicate AtLine(b: seq<char>, text: string, from: nat, start: nat, end: nat, save: nat) {
    && |b| == |text| + 1 && b[|text|] == '\0' && IsLine(text, from, start, end) && b[end] == '\0'
    && (forall i :: 0 <= i < from ==> b[i] == Dispatched(text)[i])
    && (forall i :: from <= i < |text| && i != end ==> b[i] == text[i])
    && (0 < from ==> text[from - 1] == '\n')
    && save == if end < |text| then end + 1 else end
  }

  /** `strtok` with a newline, going on at `from`: where the next line begins and where to go on. */
  method StrTok(buf: array<char>, from: nat, ghost text: string)
    returns (line: Option<nat>, save: nat, ghost end: nat)
    requires JoinedUpTo(buf[..], text, from) && '\0' !in text
    modifies buf
    ensures if line.Some? then AtLine(buf[..], text, from, line.value, end, save)
            else JoinedUpTo(buf[..], text, from) && forall i :: from <= i < |text| ==> text[i] == '\n'
  {
    var start := SkipNewlines(buf, from, text);
    end := start;
    if buf[start] == '\0' {
      return None, start, end;
    }
    save := FindEnd(buf, start, text);
    end := save;
    if buf[save] == '\n' {
      buf[save] := '\0';
      save := save + 1;
    }
    line := Some(start);
  }

  /** The rest of the text as it stands in the buffer. */
  ghost predicate RestAt(b: seq<char>, text: string, at: nat) {
    && '\0' !in text && |b| == |text| + 1 && b[|text|] == '\0' && at <= |text|
    && forall i :: at <= i < |text| ==> b[i] == text[i] && b[i] in text
  }

  method SkipNewlines(buf: array<char>, from: nat, ghost text: string) returns (start: nat)
    requires RestAt(buf[..], text, from)
    ensures from <= start <= |text| && (buf[start] == '\0' <==> start == |text|) && buf[start] != '\n'
    ensures forall i :: from <= i < start ==> text[i] == '\n'
  {
    start := from;
    while buf[start] == '\n'
      invariant from <= start <= |text| && forall i :: from <= i < start ==> text[i] == '\n'
      decreases |text| - start
    {
      start := start + 1;
    }
  }

  method FindEnd(buf: array<char>, start: nat, ghost text: string) returns (end: nat)
    requires RestAt(buf[..], text, start)
    ensures start <= end <= |text| && (if end < |text| then buf[end] == '\n' else buf[end] == '\0')
    ensures forall i :: start <= i < end ==> text[i] != '\n'
  {
    end := start;
    while buf[end] != '\n' && buf[end] != '\0'
      invariant start <= end <= |text| && forall i :: start <= i < end ==> text[i] != '\n'
      decreases |text| - end
    {
      end := end + 1;
    }
  }

  /** `strlen` of the line at `start`. */
  method LineLength(buf: array<char>, start: nat, ghost end: nat) returns (n: nat)
    requires start <= end < buf.Length && buf[end] == '\0' && forall i :: start <= i < end ==> buf[i] != '\0'
    ensures n == end - start
  {
    n := 0;
    while buf[start + n] != '\0'
      invariant start + n <= end
      decreases end - n
    {
      n := n + 1;
    }
  }

  lemma LineHolds(b: seq<char>, text: string, from: nat, start: nat, end: nat, save: nat)
    requires AtLine(b, text, from, start, end, save) && '\0' !in text
    ensures forall i :: start <= i < end ==> b[i] != '\0'
  {
    forall i | start <= i < end
      ensures b[i] != '\0'
    {
      assert text[i] in text;
    }
  }

  /** A line in the middle: with the semicolon in place, the text is joined up to its end. */
  lemma LineDone(b: seq<char>, text: string, from: nat, start: nat, end: nat, save: nat)
    requires AtLine(b, text, from, start, end, save) && end < |text|
    ensures JoinedUpTo(b[end := ';'], text, save)
  {
  }

  lemma LastLine(b: seq<char>, text: string, from: nat, start: nat, end: nat, save: nat)
    requires AtLine(b, text, from, start, end, save) && end == |text|
    ensures b == Dispatched(text) + ['\0']
  {
  }

  lemma OnlyNewlines(b: seq<char>, text: string, from: nat)
    requires JoinedUpTo(b, text, from) && forall i :: from <= i < |text| ==> text[i] == '\n'
    ensures b == Dispatched(text) + ['\0']
  {
  }

  /** The loop of `ipc_client_handle_command` over the lines of a command. */
  method JoinLines(buf: array<char>, payloadLength: nat)
    requires buf.Length == payloadLength + 1 && buf[payloadLength] == '\0' && '\0' !in buf[..payloadLength]
    modifies buf
    ensures buf[..] == Dispatched(old(buf[..payloadLength])) + ['\0']
  {
    ghost var text := buf[..payloadLength];
    ghost var from: nat, end: nat := 0, 0;
    var line: Option<nat>, save: nat;
    line, save, end := StrTok(buf, 0, text);
    while line.Some?
      invariant if line.Some? then AtLine(buf[..], text, from, line.value, end, save)
                else JoinedUpTo(buf[..], text, from) && forall i :: from <= i < |text| ==> text[i] == '\n'
      decreases |text| - from, if line.Some? then 1 else 0
    {
      LineHolds(buf[..], text, from, line.value, end, save);
      var length := LineLength(buf, line.value, end);
      if line.value + length >= payloadLength {
        LastLine(buf[..], text, from, line.value, end, save);
        return;
      }
      LineDone(buf[..], text, from, line.value, end, save);
      buf[line.value + length] := ';';
      from := save;
      line, save, end := StrTok(buf, save, text);
    }
    OnlyNewlines(buf[..], text, from);
  }

  // ---- what becomes of the bar's command ----

  lemma JoinedAppend(prev: char, a: string, b: string)
    ensures Joined(prev, a + b) == Joined(prev, a) + Joined(if a == "" then prev else a[|a| - 1], b)
  {
  }

  /** A newline behind another character becomes a semicolon. */
  function JoinedChar(prev: char, c: char): char {
    if c == '\n' && prev != '\n' then ';' else c
  }

  function Last(prev: char, s: string): char {
    if s == "" then prev else s[|s| - 1]
  }

  lemma JoinedLast(prev: char, s: string, c: char)
    ensures Joined(prev, s + [c]) == Joined(prev, s) + [JoinedChar(Last(prev, s), c)]
  {
  }

  lemma JoinedQuoted(prev: char, s: string, c: char)
    ensures Joined(prev, s + W.Quoted(c)) == Joined(prev, s) + W.Quoted(JoinedChar(Last(prev, s), c))
  {
    if W.NeedsBackslash(c) {
      assert s + W.Quoted(c) == (s + ['\\']) + [c];
      JoinedLast(prev, s + ['\\'], c);
      JoinedLast(prev, s, '\\');
    } else {
      JoinedLast(prev, s, c);
    }
  }

  lemma EscapedLast(init: string, c: char)
    ensures W.Escaped(init + [c]) == W.Escaped(init) + W.Quoted(c)
  {
    assert (init + [c])[..|init|] == init;
  }

  /** An escaped character ends in itself. */
  lemma EscapedEnds(prev: char, name: string)
    ensures Last(prev, W.Escaped(name)) == Last(prev, name)
  {
  }

  /** Escaping and joining lines can be exchanged. */
  lemma {:induction false} JoinedEscaped(prev: char, name: string)
    ensures Joined(prev, W.Escaped(name)) == W.Escaped(Joined(prev, name))
  {
    if name == "" {
    } else {
      var init, c := name[..|name| - 1], name[|name| - 1];
      JoinedEscaped(prev, init);
      EscapedEnds(prev, init);
      JoinedQuoted(prev, W.Escaped(init), c);
      JoinedLast(prev, init, c);
      assert name == init + [c];
      EscapedLast(Joined(prev, init), JoinedChar(Last(prev, init), c));
    }
  }

  /** The name as it stands in the command that is executed. */
  function NameDispatched(name: string): string {
    Joined('"', name)
  }

  lemma CommandDispatched(name: string)
    ensures Dispatched(W.Command(name)) == W.Command(NameDispatched(name))
  {
    JoinedAppend('\n', W.HEAD + W.Escaped(name), "\"");
    JoinedAppend('\n', W.HEAD, W.Escaped(name));
    JoinedEscaped('"', name);
  }

  lemma OneLineDispatched(prev: char, name: string)
    requires '\n' !in name
    ensures Joined(prev, name) == name
  {
  }
}
