/** Splitting a command line into arguments and joining them again. */
module Tokens {
  predicate IsSpace(c: char) {
    c == ' ' || c == '\U{0C}' || c == '\n' || c == '\r' || c == '\t' || c == '\U{0B}'
  }

  /** The flags `split_args` keeps while it walks over a token. */
  datatype Lex = Lex(inString: bool, inChar: bool, inBrackets: bool, escaped: bool)

  const CLEAR := Lex(false, false, false, false)

  /** The flags after a character that does not end the token. */
  function Feed(q: Lex, c: char): Lex {
    if c == '"' && !q.inChar && !q.escaped then q.(inString := !q.inString)
    else if c == '\'' && !q.inString && !q.escaped then q.(inChar := !q.inChar)
    else if c == '[' && !q.inString && !q.inChar && !q.inBrackets && !q.escaped then q.(inBrackets := true)
    else if c == ']' && !q.inString && !q.inChar && q.inBrackets && !q.escaped then q.(inBrackets := false)
    else if c == '\\' then q.(escaped := !q.escaped)
    else q.(escaped := false)
  }

  /** A whitespace character ends a token unless it is quoted, bracketed or escaped. */
  predicate Ends(q: Lex, c: char) {
    IsSpace(c) && q == CLEAR
  }

  /** How much of `s` belongs to the token that is being read with flags `q`. */
  function TokenLength(q: Lex, s: string): (n: nat)
    ensures n <= |s|
    decreases |s|
  {
    if s == "" || Ends(q, s[0]) then 0 else 1 + TokenLength(Feed(q, s[0]), s[1..])
  }

  function Spaces(s: string): (n: nat)
    ensures n <= |s| && (n < |s| ==> !IsSpace(s[n]))
    decreases |s|
  {
    if s == "" || !IsSpace(s[0]) then 0 else 1 + Spaces(s[1..])
  }

  /** Where the whitespace that starts at `end` ends. */
  function SpacesEnd(s: string, end: nat): (next: nat)
    requires end <= |s|
    ensures end <= next <= |s| && (next < |s| ==> !IsSpace(s[next]))
  {
    end + Spaces(s[end..])
  }

  /** The arguments of a line: what `split_args` returns. */
  function Split(s: string): seq<string> {
    SplitWords(s)
  }

  function SplitWords(s: string): seq<string>
    decreases |s|
  {
    var t := s[Spaces(s)..];
    if t == "" then []
    else
      var n := TokenLength(CLEAR, t);
      assert n > 0;
      [t[..n]] + SplitWords(t[n..])
  }

  function Join(args: seq<string>): string
    requires |args| > 0
  {
    if |args| == 1 then args[0] else args[0] + " " + Join(args[1..])
  }

  // ---- the methods ----

  /** `split_args`. There is room for the final NULL behind the arguments. */
  method SplitArgs(s: string) returns (argv: array<string>, argc: nat)
    ensures argc < argv.Length && argv[..argc] == Split(s)
  {
    hide Walking, Between, SpacesEnd, Feed;
    argc := 0;
    argv := new string[2];
    var inToken := false;
    var q := CLEAR;
    var start, end := 0, 0;
    ghost var all, done: seq<string> := Split(s), [];
    WholeLine(s);
    while start < |s|
      invariant fresh(argv) && argc + 1 < argv.Length && done == argv[..argc] && 0 <= start <= end <= |s|
      invariant inToken ==> start < end && Walking(all, s, done, start, end, q)
      invariant !inToken ==> Between(all, s, done, start, end, q)
      decreases |s| - end, if inToken then 1 else 0, |s| - start
    {
      if !inToken {
        SkipSpaces(all, s, done, start, end, q);
        end := SpacesEnd(s, end);
        start := end;
        inToken := true;
      }
      if end == |s| || Ends(q, s[end]) {
        EndToken(all, s, done, start, end, q);
        done := if end > start then done + [s[start..end]] else done;
        if end - start > 0 {
          argv, argc := Push(argv, argc, s[start..end]);
        }
        inToken := false;
        q := q.(escaped := false);
      } else {
        FeedToken(all, s, done, start, end, q);
        q := Feed(q, s[end]);
        end := end + 1;
      }
    }
    AllSplit(all, s, done, q);
  }

  /** Storing an argument, and the `realloc` of argv to twice its size when only the slot for the
      final NULL would be left. */
  method Push(argv: array<string>, argc: nat, token: string) returns (next: array<string>, count: nat)
    requires argc + 1 < argv.Length
    modifies argv
    ensures next == argv || fresh(next)
    ensures count == argc + 1 && count + 1 < next.Length && next[..count] == old(argv[..argc]) + [token]
  {
    argv[argc] := token;
    next, count := argv, argc + 1;
    if count + 1 == argv.Length {
      next := new string[2 * argv.Length];
      forall i | 0 <= i < count {
        next[i] := argv[i];
      }
    }
  }

  /** Where the token that is being read at `end` with flags `q` will end. */
  function TokenEnd(s: string, end: nat, q: Lex): nat
    requires end <= |s|
  {
    end + TokenLength(q, s[end..])
  }

  /** With `done` read, `start..end` is the part of a token already walked over. */
  ghost predicate Walking(all: seq<string>, s: string, done: seq<string>, start: int, end: int, q: Lex) {
    && 0 <= start <= end <= |s| && (start < |s| ==> !IsSpace(s[start]))
    && TokenEnd(s, start, CLEAR) == TokenEnd(s, end, q) && done + Split(s[start..]) == all
  }

  /** With `done` read, no token is being read at `end`. */
  ghost predicate Between(all: seq<string>, s: string, done: seq<string>, start: int, end: int, q: Lex) {
    && 0 <= start <= end <= |s|
    && if end == |s| then done == all else q == CLEAR && done + Split(s[end..]) == all
  }

  lemma WholeLine(s: string)
    ensures Between(Split(s), s, [], 0, 0, CLEAR)
  {
    assert s[0..] == s;
    NothingLeft(s);
  }

  lemma SkipSpaces(all: seq<string>, s: string, done: seq<string>, start: nat, end: nat, q: Lex)
    requires Between(all, s, done, start, end, q)
    ensures end <= SpacesEnd(s, end) && Walking(all, s, done, SpacesEnd(s, end), SpacesEnd(s, end), q)
  {
    hide Split;
    var t, next := s[end..], SpacesEnd(s, end);
    assert s[next..] == t[Spaces(t)..];
    SplitAfterSpaces(t);
    NothingLeft(s);
    NoToken(s, q);
  }

  lemma NoToken(s: string, q: Lex)
    ensures TokenEnd(s, |s|, q) == |s|
  {
  }

  lemma NothingLeft(s: string)
    ensures Split(s[|s|..]) == []
  {
    assert s[|s|..] == "";
  }

  lemma SplitAfterSpaces(t: string)
    ensures Split(t[Spaces(t)..]) == Split(t)
  {
    var u := t[Spaces(t)..];
    assert Spaces(u) == 0 && u[0..] == u;
  }

  lemma FeedToken(all: seq<string>, s: string, done: seq<string>, start: nat, end: nat, q: Lex)
    requires Walking(all, s, done, start, end, q) && end < |s| && !Ends(q, s[end])
    ensures Walking(all, s, done, start, end + 1, Feed(q, s[end]))
  {
    assert s[end..][0] == s[end] && s[end..][1..] == s[end + 1..];
    assert TokenEnd(s, end, q) == TokenEnd(s, end + 1, Feed(q, s[end]));
  }

  lemma EndToken(all: seq<string>, s: string, done: seq<string>, start: nat, end: nat, q: Lex)
    requires Walking(all, s, done, start, end, q) && (end == |s| || Ends(q, s[end]))
    ensures Between(all, s, if end > start then done + [s[start..end]] else done, start, end, q.(escaped := false))
  {
    assert TokenEnd(s, end, q) == end;
    NothingLeft(s);
    if end > start {
      TokenCut(s, start, end);
      Regroup(done, s[start..end], Split(s[end..]));
    }
  }

  lemma TokenCut(s: string, start: nat, end: nat)
    requires start < end <= |s| && !IsSpace(s[start]) && TokenEnd(s, start, CLEAR) == end
    ensures Split(s[start..]) == [s[start..end]] + Split(s[end..])
  {
    var t := s[start..];
    FirstToken(t);
    assert t[..end - start] == s[start..end] && t[end - start..] == s[end..];
  }

  lemma Regroup(a: seq<string>, x: string, b: seq<string>)
    ensures a + ([x] + b) == (a + [x]) + b
  {
  }

  lemma FirstToken(t: string)
    requires t != "" && !IsSpace(t[0])
    ensures var n := TokenLength(CLEAR, t); n > 0 && Split(t) == [t[..n]] + Split(t[n..])
  {
    assert Spaces(t) == 0 && t[0..] == t;
  }

  /** A token that fills the line. */
  lemma WholeToken(t: string)
    requires t != "" && !IsSpace(t[0]) && TokenLength(CLEAR, t) == |t|
    ensures Split(t) == [t]
  {
    FirstToken(t);
    hide TokenLength, Split;
    SplitNothing(t[|t|..]);
    assert t[..|t|] == t;
  }

  lemma SplitNothing(s: string)
    requires s == ""
    ensures Split(s) == []
  {
  }

  lemma AllSplit(all: seq<string>, s: string, done: seq<string>, q: Lex)
    requires Between(all, s, done, |s|, |s|, q)
    ensures done == all
  {
  }

  /** `join_args`: measures, then copies each argument followed by a space and overwrites the last
      space with the terminator. */
  method JoinArgs(argv: seq<string>) returns (res: array<char>)
    requires |argv| > 0
    ensures res[..] == Join(argv) + ['\0']
  {
    var len := 0;
    for i := 0 to |argv|
      invariant len == |Spaced(argv[..i])|
    {
      SpacedNext(argv, i);
      len := len + |argv[i]| + 1;
    }
    SpacedIsJoin(argv);
    res := new char[len];
    len := 0;
    assert argv[..|argv|] == argv;
    for i := 0 to |argv|
      invariant 0 <= len <= res.Length == |Spaced(argv)| && res[..len] == Spaced(argv[..i])
    {
      SpacedNext(argv, i);
      SpacedFits(argv, i + 1);
      Copy(res, len, argv[i] + " ");
      len := len + |argv[i]| + 1;
    }
    assert len == |Join(argv)| + 1 && res[..len] == Join(argv) + " ";
    res[len - 1] := '\0';
  }

  method Copy(buffer: array<char>, at: nat, s: string)
    requires at + |s| <= buffer.Length
    modifies buffer
    ensures buffer[..at + |s|] == old(buffer[..at]) + s
  {
    forall k | 0 <= k < |s| {
      buffer[at + k] := s[k];
    }
  }

  lemma SpacedNext(argv: seq<string>, i: nat)
    requires i < |argv|
    ensures Spaced(argv[..i + 1]) == Spaced(argv[..i]) + (argv[i] + " ")
  {
    assert argv[..i + 1][..i] == argv[..i];
  }

  /** Every argument followed by a space. */
  function Spaced(argv: seq<string>): string {
    if argv == [] then "" else Spaced(argv[..|argv| - 1]) + argv[|argv| - 1] + " "
  }

  lemma {:induction false} SpacedFits(argv: seq<string>, i: nat)
    requires i <= |argv|
    ensures |Spaced(argv[..i])| <= |Spaced(argv)|
  {
    if i == |argv| {
      assert argv[..i] == argv;
    } else {
      SpacedFits(argv[..|argv| - 1], i);
      assert argv[..|argv| - 1][..i] == argv[..i];
    }
  }

  lemma {:induction false} SpacedSplit(argv: seq<string>)
    requires |argv| > 0
    ensures Spaced(argv) == argv[0] + " " + Spaced(argv[1..])
  {
    if |argv| > 1 {
      SpacedSplit(argv[..|argv| - 1]);
      assert argv[..|argv| - 1][1..] == argv[1..][..|argv| - 2];
    } else {
      assert argv[..0] == [];
    }
  }

  lemma {:induction false} SpacedIsJoin(argv: seq<string>)
    requires |argv| > 0
    ensures Spaced(argv) == Join(argv) + " "
  {
    SpacedSplit(argv);
    if |argv| > 1 { SpacedIsJoin(argv[1..]); }
  }

  // ---- tokenizing is a normal form ----

  function FeedAll(q: Lex, s: string): Lex
    decreases |s|
  {
    if s == "" then q else FeedAll(Feed(q, s[0]), s[1..])
  }

  /** A token as it can stand last on a line: it starts with no whitespace and contains none that
      is not quoted, bracketed or escaped. */
  predicate IsLastToken(t: string) {
    t != "" && !IsSpace(t[0]) && TokenLength(CLEAR, t) == |t|
  }

  /** A token as it can stand anywhere: moreover all quotes, brackets and escapes are closed. */
  predicate IsToken(t: string) {
    IsLastToken(t) && FeedAll(CLEAR, t) == CLEAR
  }

  predicate IsNormal(args: seq<string>) {
    |args| > 0 && IsLastToken(args[|args| - 1]) && forall i :: 0 <= i < |args| - 1 ==> IsToken(args[i])
  }

  /** A closed token ends at the first space behind it. */
  lemma {:induction false} TokenThenSpace(q: Lex, t: string, rest: string)
    requires TokenLength(q, t) == |t| && FeedAll(q, t) == CLEAR
    ensures TokenLength(q, t + " " + rest) == |t|
    decreases |t|
  {
    if t != "" {
      TokenThenSpace(Feed(q, t[0]), t[1..], rest);
      assert (t + " " + rest)[1..] == t[1..] + " " + rest;
    }
  }

  /** What is cut off as a token is one, and is closed unless it ends the line. */
  lemma {:induction false} CutToken(q: Lex, t: string)
    ensures var n := TokenLength(q, t);
      && TokenLength(q, t[..n]) == n
      && (n < |t| ==> FeedAll(q, t[..n]) == CLEAR)
    decreases |t|
  {
    var n := TokenLength(q, t);
    if n > 0 {
      CutToken(Feed(q, t[0]), t[1..]);
      assert t[..n][1..] == t[1..][..n - 1];
    }
  }

  /** The tokens of any line are in normal form. */
  lemma {:induction false} SplitIsNormal(s: string)
    ensures Split(s) == [] || IsNormal(Split(s))
    decreases |s|
  {
    var t := s[Spaces(s)..];
    if t != "" {
      var n := TokenLength(CLEAR, t);
      FirstToken(t);
      SplitAfterSpaces(s);
      CutToken(CLEAR, t);
      assert !IsSpace(t[..n][0]);
      SplitIsNormal(t[n..]);
      if Split(t[n..]) == [] {
      } else {
        assert t[n..] != "";
        var args := Split(t[n..]);
        assert forall i :: 0 < i < |Split(s)| ==> Split(s)[i] == args[i - 1];
      }
    }
  }

  /** Splitting the join of a normal form gives it back. */
  lemma {:induction false} SplitJoin(args: seq<string>)
    requires IsNormal(args)
    ensures Split(Join(args)) == args
  {
    hide TokenLength, FeedAll, Split;
    if |args| == 1 {
      WholeToken(args[0]);
    } else {
      SplitFirst(args[0], Join(args[1..]));
      assert forall i :: 0 <= i < |args[1..]| ==> args[1..][i] == args[i + 1];
      SplitJoin(args[1..]);
      assert args == [args[0]] + args[1..];
    }
  }

  /** A closed token at the front of a line is its first word. */
  lemma SplitFirst(t: string, rest: string)
    requires IsToken(t)
    ensures Split(t + " " + rest) == [t] + Split(rest)
  {
    var line := t + " " + rest;
    TokenThenSpace(CLEAR, t, rest);
    FirstToken(line);
    assert line[..|t|] == t && line[|t|..] == " " + rest;
    SplitSpace(rest);
  }

  lemma SplitSpace(s: string)
    ensures Split(" " + s) == Split(s)
  {
    assert (" " + s)[1..] == s;
    assert Spaces(" " + s) == 1 + Spaces(s);
    assert (" " + s)[Spaces(" " + s)..] == s[Spaces(s)..];
  }

  /** Exactly the normal forms survive joining and splitting. In particular splitting a line,
      joining the result and splitting again changes nothing. */
  lemma NormalFormIff(args: seq<string>)
    requires |args| > 0
    ensures Split(Join(args)) == args <==> IsNormal(args)
  {
    SplitIsNormal(Join(args));
    if IsNormal(args) {
      SplitJoin(args);
    }
  }

  lemma ResplitStable(s: string)
    requires Split(s) != []
    ensures Split(Join(Split(s))) == Split(s)
  {
    SplitIsNormal(s);
    SplitJoin(Split(s));
  }
}
