/** What counts as one word of a command line: text in quotes or brackets, with anything in it but what ends it,
    and whitespace behind a backslash. */
module TokenForms {
  import opened Tokens
  import W = WorkspaceCommand

  datatype Marks = DoubleQuotes | SingleQuotes | Brackets

  function Opening(m: Marks): char {
    match m
    case DoubleQuotes => '"'
    case SingleQuotes => '\''
    case Brackets => '['
  }

  function Closing(m: Marks): char {
    if m == Brackets then ']' else Opening(m)
  }

  /** What may stand between them. Inside quotes everything else loses its meaning; inside brackets quotes keep
      theirs. */
  predicate Inner(m: Marks, s: string) {
    Closing(m) !in s && '\\' !in s && (m == Brackets ==> '"' !in s && '\'' !in s)
  }

  function Inside(m: Marks): Lex {
    match m
    case DoubleQuotes => CLEAR.(inString := true)
    case SingleQuotes => CLEAR.(inChar := true)
    case Brackets => CLEAR.(inBrackets := true)
  }

  /** Characters that change no flag and end nothing. */
  lemma {:induction false} Through(q: Lex, s: string)
    requires forall c :: c in s ==> Feed(q, c) == q && !Ends(q, c)
    ensures TokenLength(q, s) == |s| && FeedAll(q, s) == q
    decreases |s|
  {
    if s != "" {
      assert s[0] in s && forall c :: c in s[1..] ==> c in s;
      Through(q, s[1..]);
    }
  }

  lemma InnerThrough(m: Marks, s: string)
    requires Inner(m, s)
    ensures TokenLength(Inside(m), s) == |s| && FeedAll(Inside(m), s) == Inside(m)
  {
    forall c | c in s
      ensures Feed(Inside(m), c) == Inside(m) && !Ends(Inside(m), c)
    {
      match m
      case DoubleQuotes =>
      case SingleQuotes =>
      case Brackets =>
    }
    Through(Inside(m), s);
  }

  lemma OpensAndCloses(m: Marks)
    ensures Feed(CLEAR, Opening(m)) == Inside(m) && Feed(Inside(m), Closing(m)) == CLEAR
    ensures !IsSpace(Opening(m)) && !IsSpace(Closing(m))
  {
  }

  lemma Opened(m: Marks, s: string)
    requires Inner(m, s)
    ensures TokenLength(CLEAR, [Opening(m)] + s) == 1 + |s| && FeedAll(CLEAR, [Opening(m)] + s) == Inside(m)
  {
    OpensAndCloses(m);
    InnerThrough(m, s);
    W.FeedFirst(CLEAR, Opening(m), s);
  }

  /** Text between marks is one word, whatever whitespace is in it. */
  lemma Marked(m: Marks, s: string)
    requires Inner(m, s)
    ensures IsToken([Opening(m)] + s + [Closing(m)])
  {
    OpensAndCloses(m);
    Opened(m, s);
    W.LengthAppend(CLEAR, [Opening(m)] + s, [Closing(m)]);
    W.FeedAppend(CLEAR, [Opening(m)] + s, [Closing(m)]);
    W.FeedOne(Inside(m), Closing(m));
  }

  /** Without the closing mark the rest of the line belongs to the word. */
  lemma Unclosed(m: Marks, s: string)
    requires Inner(m, s)
    ensures Split([Opening(m)] + s) == [[Opening(m)] + s]
  {
    OpensAndCloses(m);
    Opened(m, s);
    var t := [Opening(m)] + s;
    WholeToken(t);
  }

  /** Text without marks, backslashes and whitespace is one word, and so are two such texts around a character
      behind a backslash. */
  predicate Bare(s: string) {
    forall c :: c in s ==> !IsSpace(c) && c !in "\"'[\\"
  }

  lemma BareThrough(s: string)
    requires Bare(s)
    ensures TokenLength(CLEAR, s) == |s| && FeedAll(CLEAR, s) == CLEAR
  {
    Through(CLEAR, s);
  }

  lemma Escapes(c: char)
    requires c != '\\'
    ensures TokenLength(CLEAR, ['\\'] + [c]) == 2 && FeedAll(CLEAR, ['\\'] + [c]) == CLEAR
  {
    var q := Feed(CLEAR, '\\');
    W.FeedFirst(CLEAR, '\\', [c]);
    W.FeedOne(q, c);
  }

  lemma EscapedSpace(a: string, c: char, b: string)
    requires Bare(a) && Bare(b) && c != '\\'
    ensures IsToken(a + ['\\'] + [c] + b)
  {
    BareThrough(a);
    BareThrough(b);
    Escapes(c);
    W.LengthAppend(CLEAR, a, ['\\'] + [c]);
    W.FeedAppend(CLEAR, a, ['\\'] + [c]);
    W.LengthAppend(CLEAR, a + (['\\'] + [c]), b);
    W.FeedAppend(CLEAR, a + (['\\'] + [c]), b);
    assert a + ['\\'] + [c] + b == a + (['\\'] + [c]) + b;
    assert a != "" ==> a[0] in a;
  }

  /** Quoted text inside brackets keeps a closing bracket from ending them, as in criteria. */
  lemma QuotedInBrackets(a: string, m: Marks, s: string, b: string)
    requires Inner(Brackets, a) && Inner(Brackets, b) && m != Brackets && Inner(m, s)
    ensures IsToken(['['] + a + [Opening(m)] + s + [Closing(m)] + b + [']'])
  {
    var q := Inside(Brackets).(inString := m == DoubleQuotes, inChar := m == SingleQuotes);
    var quoted := [Opening(m)] + s + [Closing(m)];
    BracketedQuote(m, s, q);
    Opened(Brackets, a);
    InnerThrough(Brackets, b);
    OpensAndCloses(Brackets);
    var t := ['['] + a;
    W.LengthAppend(CLEAR, t, quoted);
    W.FeedAppend(CLEAR, t, quoted);
    W.LengthAppend(CLEAR, t + quoted, b);
    W.FeedAppend(CLEAR, t + quoted, b);
    W.LengthAppend(CLEAR, t + quoted + b, [']']);
    W.FeedAppend(CLEAR, t + quoted + b, [']']);
    W.FeedOne(Inside(Brackets), ']');
    assert ['['] + a + [Opening(m)] + s + [Closing(m)] + b + [']'] == t + quoted + b + [']'];
  }

  lemma BracketedQuote(m: Marks, s: string, q: Lex)
    requires m != Brackets && Inner(m, s)
    requires q == Inside(Brackets).(inString := m == DoubleQuotes, inChar := m == SingleQuotes)
    ensures var quoted := [Opening(m)] + s + [Closing(m)];
      TokenLength(Inside(Brackets), quoted) == |quoted| && FeedAll(Inside(Brackets), quoted) == Inside(Brackets)
  {
    var start := Inside(Brackets);
    assert Feed(start, Opening(m)) == q && Feed(q, Closing(m)) == start;
    forall c | c in s
      ensures Feed(q, c) == q && !Ends(q, c)
    {
    }
    Through(q, s);
    W.FeedFirst(start, Opening(m), s);
    W.LengthAppend(start, [Opening(m)] + s, [Closing(m)]);
    W.FeedAppend(start, [Opening(m)] + s, [Closing(m)]);
    W.FeedOne(q, Closing(m));
  }

  /** Whitespace is the space and the five control characters from 9 on. */
  lemma SpacesAre(c: char)
    ensures IsSpace(c) <==> c == ' ' || 9 <= c as int <= 13
  {
  }

  /** A word ends at whitespace behind it. */
  lemma WordEnds(t: string, c: char, rest: string)
    requires IsToken(t) && IsSpace(c)
    ensures Split(t + [c] + rest) == [t] + Split(rest)
  {
    W.LengthAppend(CLEAR, t, [c] + rest);
    var line := t + ([c] + rest);
    assert t + [c] + rest == line;
    FirstToken(line);
    assert line[..|t|] == t && line[|t|..] == [c] + rest;
    SpaceInFront(c, rest);
  }

  lemma SpaceInFront(c: char, s: string)
    requires IsSpace(c)
    ensures Split([c] + s) == Split(s)
  {
    assert ([c] + s)[1..] == s;
    assert ([c] + s)[Spaces([c] + s)..] == s[Spaces(s)..];
  }
}
