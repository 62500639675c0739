/** Where `argsep` cuts a list of commands, and where it does not. */
module CommandCuts {
  import opened Options
  import opened CommandList

  /** Text without separators, quotes and backslashes. */
  predicate Bare(s: string) {
    forall c :: c in s ==> !IsSeparator(c) && !IsSpecial(c)
  }

  predicate IsMark(c: char) {
    c == '"' || c == '\''
  }

  /** Text that leaves the flags as they are and does not end the command. */
  lemma {:induction false} Through(q: Quoting, s: string)
    requires forall c :: c in s ==> Walk(q, c) == q && !(IsSeparator(c) && q == CLEAR)
    ensures CommandLength(q, s) == |s| && WalkAll(q, s) == q
    decreases |s|
  {
    if s != "" {
      assert s[0] in s && forall c :: c in s[1..] ==> c in s;
      Through(q, s[1..]);
    }
  }

  lemma OneChar(q: Quoting, c: char)
    requires !(IsSeparator(c) && q == CLEAR)
    ensures CommandLength(q, [c]) == 1 && WalkAll(q, [c]) == Walk(q, c)
  {
    assert [c][1..] == "";
  }

  /** A command whose flags are clear at its end is cut off by the separator behind it. */
  lemma CutBehind(s: string, c: char, rest: string)
    requires s != "" && !IsSeparator(s[0]) && CommandLength(CLEAR, s) == |s| && WalkAll(CLEAR, s) == CLEAR
    requires IsSeparator(c)
    ensures FirstCommand(s + [c] + rest) == (s, Some(rest))
  {
    var all := s + ([c] + rest);
    assert s + [c] + rest == all;
    LengthAppend(CLEAR, s, [c] + rest);
    assert CommandLength(CLEAR, [c] + rest) == 0;
    assert Separators(all) == 0 && all[0..] == all;
    assert all[..|s|] == s && all[|s| + 1..] == rest;
  }

  /** Separators cut between commands without quotes. */
  lemma CutsBare(s: string, c: char, rest: string)
    requires s != "" && Bare(s) && IsSeparator(c)
    ensures FirstCommand(s + [c] + rest) == (s, Some(rest))
  {
    Through(CLEAR, s);
    assert s[0] in s;
    CutBehind(s, c, rest);
  }

  /** Separators in front of a command are skipped. */
  lemma SkipsSeparators(c: char, s: string)
    requires IsSeparator(c)
    ensures FirstCommand([c] + s) == FirstCommand(s)
  {
    assert ([c] + s)[1..] == s;
    assert ([c] + s)[Separators([c] + s)..] == s[Separators(s)..];
  }

  function Within(mark: char): Quoting {
    if mark == '"' then CLEAR.(inString := true) else CLEAR.(inChar := true)
  }

  lemma MarkedThrough(s: string, mark: char, inner: string)
    requires Bare(s) && IsMark(mark) && mark !in inner && '\\' !in inner
    ensures var t := s + [mark] + inner + [mark];
      CommandLength(CLEAR, t) == |t| && WalkAll(CLEAR, t) == CLEAR
  {
    var q := Within(mark);
    Through(CLEAR, s);
    OneChar(CLEAR, mark);
    LengthAppend(CLEAR, s, [mark]);
    WalkAppend(CLEAR, s, [mark]);
    Through(q, inner);
    LengthAppend(CLEAR, s + [mark], inner);
    WalkAppend(CLEAR, s + [mark], inner);
    OneChar(q, mark);
    LengthAppend(CLEAR, s + [mark] + inner, [mark]);
    WalkAppend(CLEAR, s + [mark] + inner, [mark]);
  }

  /** Separators between quotes, of either kind, do not cut; the one behind them does. */
  lemma QuotesProtect(s: string, mark: char, inner: string, c: char, rest: string)
    requires Bare(s) && IsMark(mark) && mark !in inner && '\\' !in inner && IsSeparator(c)
    ensures FirstCommand(s + [mark] + inner + [mark] + [c] + rest) == (s + [mark] + inner + [mark], Some(rest))
  {
    var t := s + [mark] + inner + [mark];
    MarkedThrough(s, mark, inner);
    assert s != "" ==> s[0] in s;
    CutBehind(t, c, rest);
  }

  /** Behind a backslash no separator cuts, however many there are, until an ordinary character comes. */
  lemma EscapesRun(s: string, separators: string, d: char, c: char, rest: string)
    requires Bare(s) && (forall e :: e in separators ==> IsSeparator(e)) && Bare([d]) && IsSeparator(c)
    ensures var t := s + ['\\'] + separators + [d];
      FirstCommand(t + [c] + rest) == (t, Some(rest))
  {
    var q := CLEAR.(escaped := true);
    Through(CLEAR, s);
    OneChar(CLEAR, '\\');
    LengthAppend(CLEAR, s, ['\\']);
    WalkAppend(CLEAR, s, ['\\']);
    Through(q, separators);
    LengthAppend(CLEAR, s + ['\\'], separators);
    WalkAppend(CLEAR, s + ['\\'], separators);
    assert d in [d];
    OneChar(q, d);
    LengthAppend(CLEAR, s + ['\\'] + separators, [d]);
    WalkAppend(CLEAR, s + ['\\'] + separators, [d]);
    assert s != "" ==> s[0] in s;
    CutBehind(s + ['\\'] + separators + [d], c, rest);
  }
}
