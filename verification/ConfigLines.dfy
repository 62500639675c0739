/** Logical lines of a configuration file: continued lines, whitespace around them, braces behind them, and what
    a block of commands takes. */
module ConfigLines {
  import opened Tokens
  import opened ConfigReader

  // ---- continued lines ----

  /** Lines put together without their last characters. */
  function Glued(parts: seq<string>): string {
    if parts == [] then "" else Glued(parts[..|parts| - 1]) + Cut(parts[|parts| - 1])
  }

  function Cut(line: string): string {
    if line == "" then "" else line[..|line| - 1]
  }

  predicate IsComment(text: string) {
    text != "" && text[0] == '#'
  }

  predicate EndsInBackslash(line: string) {
    line != "" && line[|line| - 1] == '\\'
  }

  /** Lines that end in a backslash, and the one behind them, make one line, without the backslashes, unless that
      starts like a comment; a backslash at its end goes on further. */
  lemma {:induction false} ContinuedLine(parts: seq<string>, last: string, rest: seq<string>)
    requires forall i :: 0 <= i < |parts| ==> EndsInBackslash(parts[i])
    requires !IsComment(Glued(parts) + last) && (EndsInBackslash(Glued(parts) + last) ==> rest == [])
    ensures NextLine(parts + [last] + rest) == (Glued(parts) + last, rest)
    decreases |parts|
  {
    hide NextLine, Glued;
    if parts == [] {
      GluedNone();
      LastLine(last, rest);
      assert parts + [last] + rest == [last] + rest && "" + last == last;
    } else {
      var behind := parts[1..] + [last];
      var next := Cut(parts[0]) + behind[0];
      var joined := if |parts| == 1 then [] else [next] + parts[2..];
      var end := if |parts| == 1 then next else last;
      GluedFirst(parts);
      GluedAgain(parts, last);
      CommentStarts(parts[0], Glued(parts[1..]) + last);
      JoinNext(parts[0], behind[0], behind[1..] + rest);
      assert parts + [last] + rest == [parts[0], behind[0]] + (behind[1..] + rest);
      assert joined + [end] + rest == [next] + (behind[1..] + rest);
      ContinuedLine(joined, end, rest);
    }
  }

  lemma GluedNone()
    ensures Glued([]) == ""
  {
  }

  lemma LastLine(line: string, rest: seq<string>)
    requires !IsComment(line) && (EndsInBackslash(line) ==> rest == [])
    ensures NextLine([line] + rest) == (line, rest)
  {
    assert ([line] + rest)[1..] == rest;
  }

  lemma JoinNext(first: string, second: string, rest: seq<string>)
    requires EndsInBackslash(first) && !IsComment(first)
    ensures NextLine([first, second] + rest) == NextLine([Cut(first) + second] + rest)
  {
    var lines := [first, second] + rest;
    assert lines[0] == first && lines[1] == second && lines[2..] == rest;
  }

  /** Putting the first line and the second together changes nothing about the whole. */
  lemma GluedAgain(parts: seq<string>, last: string)
    requires parts != [] && forall i :: 0 <= i < |parts| ==> EndsInBackslash(parts[i])
    ensures |parts| == 1 ==> Glued([]) + (Cut(parts[0]) + last) == Glued(parts) + last
    ensures |parts| > 1 ==>
      var joined := [Cut(parts[0]) + parts[1]] + parts[2..];
      Glued(joined) == Glued(parts) && forall i :: 0 <= i < |joined| ==> EndsInBackslash(joined[i])
  {
    hide Glued;
    GluedFirst(parts);
    GluedNone();
    if |parts| == 1 {
      assert parts[1..] == [] && "" + (Cut(parts[0]) + last) == (Cut(parts[0]) + "") + last;
    } else {
      var joined := [Cut(parts[0]) + parts[1]] + parts[2..];
      GluedFirst(joined);
      GluedFirst(parts[1..]);
      assert joined[1..] == parts[1..][1..];
      LastJoined(parts[0], parts[1]);
      assert Cut(joined[0]) == Cut(parts[0]) + Cut(parts[1]);
    }
  }

  lemma {:induction false} GluedFirst(parts: seq<string>)
    requires parts != []
    ensures Glued(parts) == Cut(parts[0]) + Glued(parts[1..])
  {
    if |parts| > 1 {
      GluedFirst(parts[..|parts| - 1]);
      assert parts[..|parts| - 1][1..] == parts[1..][..|parts| - 2];
    }
  }

  lemma LastJoined(first: string, second: string)
    ensures EndsInBackslash(second) ==> EndsInBackslash(Cut(first) + second)
  {
  }

  lemma CommentStarts(first: string, more: string)
    ensures IsComment(first) && EndsInBackslash(first) ==> IsComment(Cut(first) + more)
  {
  }

  /** A comment goes on on no other line, and neither does a line that does not end in a backslash. */
  lemma SingleLine(line: string, rest: seq<string>)
    requires IsComment(line) || !EndsInBackslash(line)
    ensures NextLine([line] + rest) == (line, rest)
  {
    assert ([line] + rest)[1..] == rest;
  }

  // ---- whitespace ----

  predicate AllSpaces(s: string) {
    forall c :: c in s ==> IsSpace(c)
  }

  lemma {:induction false} LeadingSpaces(s: string)
    ensures AllSpaces(s[..Spaces(s)])
  {
    if s != "" && IsSpace(s[0]) {
      LeadingSpaces(s[1..]);
      assert s[..Spaces(s)] == [s[0]] + s[1..][..Spaces(s[1..])];
    }
  }

  lemma {:induction false} TrimEndIs(s: string) returns (after: string)
    ensures s == TrimEnd(s) + after && AllSpaces(after)
    ensures TrimEnd(s) != "" ==> !IsSpace(TrimEnd(s)[|TrimEnd(s)| - 1]) && TrimEnd(s)[0] == s[0]
  {
    after := "";
    if s != "" && IsSpace(s[|s| - 1]) {
      after := TrimEndIs(s[..|s| - 1]);
      after := after + [s[|s| - 1]];
      assert s == s[..|s| - 1] + [s[|s| - 1]];
    } else {
      assert s + "" == s;
    }
  }

  /** Stripping takes whitespace off both ends, all of it and nothing else. */
  lemma TrimIs(s: string) returns (before: string, after: string)
    ensures s == before + Trim(s) + after && AllSpaces(before) && AllSpaces(after)
    ensures Trim(s) != "" ==> !IsSpace(Trim(s)[0]) && !IsSpace(Trim(s)[|Trim(s)| - 1])
  {
    LeadingSpaces(s);
    before := s[..Spaces(s)];
    after := TrimEndIs(s[Spaces(s)..]);
    assert s == before + s[Spaces(s)..];
  }

  // ---- braces ----

  /** Behind a line that ends in a brace none is looked for. */
  lemma BraceLineAlone(line: string, rest: seq<string>)
    requires !EndsInBackslash(line) && Trim(line) != ""
    requires Trim(line)[|Trim(line)| - 1] == '{' || Trim(line)[|Trim(line)| - 1] == '}'
    ensures TakeLine([line] + rest) == (Trim(line), 0, rest)
  {
    SingleLine(line, rest);
    assert rest[0..] == rest;
  }

  // ---- blocks of commands ----

  const BLOCK := "<commands>"

  /** In a `<commands>` block every line is refused, the closing brace as well, since the name of the block is put
      in front of it: once opened it stays open. */
  lemma CommandsStayOpen(exec: Exec, r: Reader, line: string, addBrace: bool)
    requires r.stack != [] && r.stack[0] == BLOCK
    ensures Act(exec, r, ExpandLine(r.stack, line, addBrace)) == r.(ok := false)
  {
    var more := line + if addBrace then " {" else "";
    BlockWord(more);
    assert ExpandLine(r.stack, line, addBrace) == BLOCK + " " + more;
  }

  lemma BlockWord(more: string)
    ensures Split(BLOCK + " " + more) != [] && Split(BLOCK + " " + more)[0] == BLOCK
  {
    PlainWord(BLOCK);
    WordInFront(BLOCK, more);
  }

  lemma WordInFront(word: string, more: string)
    requires word != "" && !IsSpace(word[0]) && TokenLength(CLEAR, word) == |word| && FeedAll(CLEAR, word) == CLEAR
    ensures Split(word + " " + more) != [] && Split(word + " " + more)[0] == word
  {
    hide TokenLength, FeedAll, Split;
    TokenThenSpace(CLEAR, word, more);
    var s := word + " " + more;
    FirstToken(s);
    assert s[..|word|] == word;
  }

  lemma {:induction false} PlainWord(s: string)
    requires forall i :: 0 <= i < |s| ==> Feed(CLEAR, s[i]) == CLEAR && !IsSpace(s[i])
    ensures TokenLength(CLEAR, s) == |s| && FeedAll(CLEAR, s) == CLEAR
    decreases |s|
  {
    if s != "" { PlainWord(s[1..]); }
  }
}
