/** `strip_quotes` and `unescape_string`, which rewrite a C string in its own buffer. */
module Unquote {
  import opened Options

  /** The C string in a buffer: what comes before the first NUL. */
  function CString(b: seq<char>): string {
    if b == [] || b[0] == '\0' then "" else [b[0]] + CString(b[1..])
  }

  lemma {:induction false} CStringIs(s: string, rest: seq<char>)
    requires '\0' !in s
    ensures CString(s + ['\0'] + rest) == s
  {
    if s != "" {
      CStringIs(s[1..], rest);
      assert (s + ['\0'] + rest)[1..] == s[1..] + ['\0'] + rest;
    }
  }

  /** The buffer holds a string of length `n` without inner NULs. */
  ghost predicate Holds(b: seq<char>, n: int) {
    0 <= n < |b| && b[n] == '\0' && forall i :: 0 <= i < n ==> b[i] != '\0'
  }

  lemma HoldsIs(b: seq<char>, n: nat)
    requires Holds(b, n)
    ensures CString(b) == b[..n]
  {
    CStringIs(b[..n], b[n + 1..]);
    assert b == b[..n] + ['\0'] + b[n + 1..];
  }

  method Strlen(buf: array<char>, ghost length: nat) returns (n: nat)
    requires Holds(buf[..], length)
    ensures n == length
  {
    n := 0;
    while buf[n] != '\0'
      invariant n <= length
      decreases length - n
    {
      assert buf[..][n] == buf[n];
      n := n + 1;
    }
    assert buf[..][n] == buf[n];
  }

  // ---- strip_quotes ----

  datatype Quotes = Quotes(inString: bool, inChar: bool, escaped: bool)

  const OUTSIDE := Quotes(false, false, false)

  predicate OpensOrCloses(q: Quotes, c: char) {
    !q.escaped && ((c == '\'' && !q.inString) || (c == '"' && !q.inChar))
  }

  function Toggle(q: Quotes, c: char): Quotes {
    if c == '\'' then q.(inChar := !q.inChar) else q.(inString := !q.inString)
  }

  function Pass(q: Quotes, c: char): Quotes {
    q.(escaped := c == '\\' && !q.escaped)
  }

  /** The text without its quotes; backslashes stay. */
  function Strip(q: Quotes, s: string): string
    decreases |s|
  {
    if s == "" then ""
    else if OpensOrCloses(q, s[0]) then Strip(Toggle(q, s[0]), s[1..])
    else [s[0]] + Strip(Pass(q, s[0]), s[1..])
  }

  function Stripped(s: string): string {
    Strip(OUTSIDE, s)
  }

  /** The walk of `strip_quotes` has done `k` characters of its output; the rest of the input is at `k..end`. */
  ghost predicate Stripping(b: seq<char>, k: int, end: int, q: Quotes, out: string) {
    && 0 <= k <= end && Holds(b, end) && |out| >= k && b[..k] == out[..k]
    && Strip(q, b[k..end]) == out[k..]
  }

  lemma StripStep(b: seq<char>, k: nat, end: nat, q: Quotes, out: string)
    requires Stripping(b, k, end, q, out) && k < end
    ensures !OpensOrCloses(q, b[k]) ==> Stripping(b, k + 1, end, Pass(q, b[k]), out)
    ensures OpensOrCloses(q, b[k]) ==> forall c: seq<char> ::
      |c| == |b| && c[..k] == b[..k] && c[k..end] == b[k + 1..end + 1] ==>
        Stripping(c, k, end - 1, Toggle(q, b[k]), out)
  {
    assert b[k..end][0] == b[k] && b[k..end][1..] == b[k + 1..end];
    if OpensOrCloses(q, b[k]) {
      forall c: seq<char> | |c| == |b| && c[..k] == b[..k] && c[k..end] == b[k + 1..end + 1]
        ensures Stripping(c, k, end - 1, Toggle(q, b[k]), out)
      {
        assert forall i :: 0 <= i < k ==> c[i] == c[..k][i] == b[..k][i];
        assert forall i :: k <= i < end ==> c[i] == c[k..end][i - k] == b[i + 1];
        assert c[k..end - 1] == b[k + 1..end];
      }
    } else {
      assert out[k..][0] == b[k] && out[k..][1..] == out[k + 1..];
    }
  }

  /** `strip_quotes`; `n` is the length of the string. */
  method StripQuotes(buf: array<char>, ghost n: nat)
    requires Holds(buf[..], n)
    modifies buf
    ensures Holds(buf[..], |Stripped(old(buf[..n]))|)
    ensures CString(buf[..]) == Stripped(old(buf[..n]))
  {
    ghost var out := Stripped(buf[..n]);
    var q := OUTSIDE;
    var end := Strlen(buf, n);
    var str := 0;
    assert buf[..][0..end] == buf[..n];
    while buf[str] != '\0'
      invariant str <= end && Stripping(buf[..], str, end, q, out)
      decreases end - str
    {
      StillInside(buf[..], str, end);
      str, end, q := StripOne(buf, str, end, q, out);
    }
    StripEnd(buf[..], str, end, q, out);
    buf[end] := '\0';
    HoldsIs(buf[..], end);
  }

  lemma StillInside(b: seq<char>, str: nat, end: nat)
    requires Holds(b, end) && str <= end && b[str] != '\0'
    ensures str < end
  {
  }

  /** The body of the loop: a quote is removed by moving the rest, terminator included, over it; other
      characters are passed. */
  method StripOne(buf: array<char>, str: nat, end: nat, q: Quotes, ghost out: string)
    returns (str': nat, end': nat, q': Quotes)
    requires str < end && Stripping(buf[..], str, end, q, out)
    modifies buf
    ensures str' <= end' && end' - str' < end - str && Stripping(buf[..], str', end', q', out)
  {
    ghost var b := buf[..];
    StripStep(b, str, end, q, out);
    if OpensOrCloses(q, buf[str]) {
      q' := Toggle(q, buf[str]);
      forall i | str <= i < end {
        buf[i] := buf[i + 1];
      }
      assert forall i :: 0 <= i < str ==> buf[i] == b[i];
      assert forall i :: str <= i < end ==> buf[i] == b[i + 1];
      Moved(b, buf[..], str, end);
      str', end' := str, end - 1;
    } else {
      q' := Pass(q, buf[str]);
      str', end' := str + 1, end;
    }
  }

  lemma Moved(b: seq<char>, c: seq<char>, str: nat, end: nat)
    requires |c| == |b| && str <= end < |b|
    requires forall i :: 0 <= i < str ==> c[i] == b[i]
    requires forall i :: str <= i < end ==> c[i] == b[i + 1]
    ensures c[..str] == b[..str] && c[str..end] == b[str + 1..end + 1]
  {
  }

  lemma StripEnd(b: seq<char>, str: nat, end: nat, q: Quotes, out: string)
    requires Stripping(b, str, end, q, out) && b[str] == '\0'
    ensures str == end && b[..end] == out && |out| == end
  {
    assert str == end && b[str..end] == "";
    assert out[str..] == "" && out[..str] == out;
  }

  // ---- unescape_string ----

  /** The single-character escapes, by the character after the backslash. */
  function Simple(c: char): Option<char> {
    if c == 'a' then Some('\U{07}')
    else if c == 'b' then Some('\U{08}')
    else if c == 'f' then Some('\U{0C}')
    else if c == 'n' then Some('\n')
    else if c == 'r' then Some('\r')
    else if c == 't' then Some('\t')
    else if c == 'v' then Some('\U{0B}')
    else if c == '\\' || c == '\'' || c == '"' || c == '?' then Some(c)
    else None
  }

  function At(cells: seq<char>, i: nat): char {
    if i < |cells| then cells[i] else '\0'
  }

  function Put(cells: seq<char>, i: nat, c: char): (r: seq<char>)
    ensures |r| == |cells|
  {
    if i < |cells| then cells[i := c] else cells
  }

  predicate IsDigit(c: char) {
    '0' <= c <= '9'
  }

  function Digit(c: char): nat
    requires IsDigit(c)
  {
    c as nat - '0' as nat
  }

  /** The effect of an escape on the cells from its backslash at `i` on: the first cell takes the
      character, the others become NUL. For `x` up to two decimal digits are read, the first
      weighing 16. Other escapes change nothing. */
  function Escape(cells: seq<char>, i: nat): (r: seq<char>)
    requires i + 1 < |cells|
    ensures |r| == |cells|
  {
    var c := cells[i + 1];
    if Simple(c).Some? then cells[i := Simple(c).value][i + 1 := '\0']
    else if c == 'x' then
      if !IsDigit(At(cells, i + 2)) then cells[i := '\0'][i + 1 := '\0']
      else if !IsDigit(At(cells, i + 3)) then
        cells[i := Digit(cells[i + 2]) as char][i + 1 := '\0'][i + 2 := '\0']
      else
        cells[i := (16 * Digit(cells[i + 2]) + Digit(cells[i + 3])) as char]
          [i + 1 := '\0'][i + 2 := '\0'][i + 3 := '\0']
    else cells
  }

  /** The first phase, which runs up to a NUL, be it the end or one it has written itself: the
      cells, and the index of a `\0` escape if it stopped at one. */
  function Expand(cells: seq<char>, i: nat): (seq<char>, Option<nat>)
    decreases |cells| - i
  {
    if At(cells, i) == '\0' then (cells, None)
    else if cells[i] != '\\' || i + 1 >= |cells| then Expand(cells, i + 1)
    else if cells[i + 1] == '0' then (cells[i := '\0'], Some(i))
    else Expand(Escape(cells, i), i + 2)
  }

  /** The characters that are not NUL: what the second phase leaves. */
  function Squeezed(cells: seq<char>): string {
    if cells == [] then ""
    else Squeezed(cells[..|cells| - 1]) + if cells[|cells| - 1] == '\0' then "" else [cells[|cells| - 1]]
  }

  /** What `unescape_string` makes of a string. */
  function Unescaped(s: string): string {
    var (cells, stop) := Expand(s, 0);
    if stop.Some? then CString(cells) else Squeezed(cells)
  }

  /** No backslash is the last character the first phase reaches. */
  predicate NoLoneBackslash(cells: seq<char>, i: nat)
    decreases |cells| - i
  {
    if At(cells, i) == '\0' then true
    else if cells[i] != '\\' then NoLoneBackslash(cells, i + 1)
    else if i + 1 >= |cells| then false
    else if cells[i + 1] == '0' then true
    else NoLoneBackslash(Escape(cells, i), i + 2)
  }

  /** `unescape_string`, for a string that does not end in an unpaired backslash: with one the
      original reads past its buffer. */
  method UnescapeString(buf: array<char>, ghost n: nat) returns (length: nat)
    requires Holds(buf[..], n) && NoLoneBackslash(buf[..n], 0)
    modifies buf
    ensures CString(buf[..]) == Unescaped(old(buf[..n]))
    ensures Expand(old(buf[..n]), 0).1 == None ==> length == |Unescaped(old(buf[..n]))|
    ensures forall k :: Expand(old(buf[..n]), 0).1 == Some(k) ==> length == k
  {
    var len := Strlen(buf, n);
    ghost var was := buf[..len];
    var i := 0;
    while buf[i] != '\0'
      invariant 0 <= i <= len && buf[len] == '\0'
      invariant NoLoneBackslash(buf[..len], i) && Expand(buf[..len], i) == Expand(was, 0)
      decreases len - i
    {
      ghost var cells := buf[..len];
      if buf[i] == '\\' {
        i := i + 1;
        if buf[i] == '0' {
          buf[i - 1] := '\0';
          assert buf[..len] == cells[i - 1 := '\0'];
          CStringCut(buf[..], len);
          return i - 1;
        }
        ApplyEscape(buf, i, len);
      }
      i := i + 1;
    }
    assert At(buf[..len], i) == '\0';
    length := Squeeze(buf, len);
  }

  /** The switch over the escaped character at `i`. */
  method ApplyEscape(buf: array<char>, i: nat, ghost len: nat)
    requires 0 < i < len < buf.Length && buf[len] == '\0'
    modifies buf
    ensures buf[len] == '\0' && buf[..len] == Escape(old(buf[..len]), i - 1)
  {
    ghost var cells := buf[..len];
    var simple := Simple(buf[i]);
    if simple.Some? {
      buf[i - 1] := simple.value;
      buf[i] := '\0';
    } else if buf[i] == 'x' {
      var c := 0;
      if IsDigit(buf[i + 1]) {
        c := Digit(buf[i + 1]);
        if IsDigit(buf[i + 2]) {
          c := c * 0x10;
          c := c + Digit(buf[i + 2]);
          buf[i + 2] := '\0';
        }
        buf[i + 1] := '\0';
      }
      buf[i] := '\0';
      buf[i - 1] := c as char;
    }
  }

  /** The second phase: shifts characters over NULs. */
  method Squeeze(buf: array<char>, len: nat) returns (length: nat)
    requires len < buf.Length
    modifies buf
    ensures CString(buf[..]) == Squeezed(old(buf[..len])) && length == |Squeezed(old(buf[..len]))|
  {
    ghost var cells := buf[..len];
    var shift := Shift(buf, len, cells);
    length := len - shift;
    buf[length] := '\0';
    SqueezedNoNul(cells);
    CStringIs(buf[..length], buf[length + 1..]);
    assert buf[..] == buf[..length] + ['\0'] + buf[length + 1..];
  }

  /** The loop: characters move over the NULs in front of them. */
  method Shift(buf: array<char>, len: nat, ghost cells: seq<char>) returns (shift: nat)
    requires len < buf.Length && cells == buf[..len]
    modifies buf
    ensures shift <= len && buf[..len - shift] == Squeezed(cells)
  {
    hide Squeezed;
    shift := 0;
    ghost var out: seq<char> := [];
    SqueezedNothing();
    for i := 0 to len
      invariant 0 <= shift <= i && |out| == i - shift && out == Squeezed(cells[..i])
      invariant forall k :: 0 <= k < |out| ==> buf[k] == out[k]
      invariant forall k :: i <= k < len ==> buf[k] == cells[k]
    {
      SqueezedNext(cells, i);
      if buf[i] == '\0' {
        shift := shift + 1;
      } else {
        out := out + [buf[i]];
        buf[i - shift] := buf[i];
      }
    }
    assert cells[..len] == cells && buf[..len - shift] == out;
  }

  lemma SqueezedNothing()
    ensures forall cells: seq<char> :: Squeezed(cells[..0]) == []
  {
  }

  lemma SqueezedNext(cells: seq<char>, i: nat)
    requires i < |cells|
    ensures Squeezed(cells[..i + 1]) == Squeezed(cells[..i]) + if cells[i] == '\0' then [] else [cells[i]]
  {
    assert cells[..i + 1][..i] == cells[..i];
  }

  lemma {:induction false} SqueezedNoNul(cells: seq<char>)
    ensures '\0' !in Squeezed(cells)
  {
    if cells != [] { SqueezedNoNul(cells[..|cells| - 1]); }
  }

  /** The terminator at `len` ends the string, if nothing before does. */
  lemma {:induction false} CStringCut(b: seq<char>, len: nat)
    requires len < |b| && b[len] == '\0'
    ensures CString(b) == CString(b[..len])
    decreases len
  {
    if len > 0 && b[0] != '\0' {
      CStringCut(b[1..], len - 1);
      assert b[1..][..len - 1] == b[..len][1..];
    } else if len == 0 {
      assert b[..len] == [];
    }
  }

  // ---- text whose escapes are only the single-character ones ----

  predicate OnlySimple(s: string)
    decreases |s|
  {
    if s == "" then true
    else if s[0] != '\\' then s[0] != '\0' && OnlySimple(s[1..])
    else |s| > 1 && Simple(s[1]).Some? && OnlySimple(s[2..])
  }

  function Decode(s: string): string
    requires OnlySimple(s)
    decreases |s|
  {
    if s == "" then ""
    else if s[0] != '\\' then [s[0]] + Decode(s[1..])
    else [Simple(s[1]).value] + Decode(s[2..])
  }

  /** The first phase from `i` on: what is left of it after squeezing, and whether it got to the
      end without reaching a `\0` escape or a lone backslash. */
  ghost function FirstPhase(cells: seq<char>, i: nat): (string, bool) {
    (Squeezed(Expand(cells, i).0), NoLoneBackslash(cells, i) && Expand(cells, i).1 == None)
  }

  lemma FirstPhaseStep(cells: seq<char>, i: nat)
    requires i < |cells| && cells[i] != '\0'
    ensures cells[i] != '\\' ==> FirstPhase(cells, i) == FirstPhase(cells, i + 1)
    ensures cells[i] == '\\' && i + 1 < |cells| && Simple(cells[i + 1]).Some? ==>
      FirstPhase(cells, i) == FirstPhase(Escape(cells, i), i + 2)
  {
  }

  /** The first phase turns the rest `s` of the cells into its decoding. */
  ghost predicate Decodes(done: seq<char>, s: string)
    requires OnlySimple(s)
  {
    FirstPhase(done + s, |done|) == (Squeezed(done) + Decode(s), true)
  }

  lemma DecodesPlain(done: seq<char>, s: string)
    requires OnlySimple(s) && s != "" && s[0] != '\\' && Decodes(done + [s[0]], s[1..])
    ensures Decodes(done, s)
  {
    FirstPhaseStep(done + s, |done|);
    assert done + s == (done + [s[0]]) + s[1..];
    SqueezedOne(done, s[0]);
    Regroup(Squeezed(done), [s[0]], Decode(s[1..]));
  }

  lemma DecodesEscape(done: seq<char>, s: string)
    requires OnlySimple(s) && s != "" && s[0] == '\\'
    requires Decodes(done + [Simple(s[1]).value] + ['\0'], s[2..])
    ensures Decodes(done, s)
  {
    var c := Simple(s[1]).value;
    FirstPhaseStep(done + s, |done|);
    assert (done + s)[|done|] == s[0] && (done + s)[|done| + 1] == s[1];
    assert Escape(done + s, |done|) == (done + [c] + ['\0']) + s[2..];
    SqueezedPair(done, c);
    Regroup(Squeezed(done), [c], Decode(s[2..]));
  }

  lemma SqueezedPair(done: seq<char>, c: char)
    requires c != '\0'
    ensures Squeezed(done + [c] + ['\0']) == Squeezed(done) + [c]
  {
    SqueezedOne(done, c);
    SqueezedOne(done + [c], '\0');
    assert Squeezed(done + [c]) + "" == Squeezed(done + [c]);
  }

  lemma Regroup(a: string, b: string, c: string)
    ensures (a + b) + c == a + (b + c) && a + "" == a
  {
  }

  lemma {:induction false} ExpandSimple(done: seq<char>, s: string)
    requires OnlySimple(s)
    ensures Decodes(done, s)
    decreases |s|
  {
    if s == "" {
      assert done + s == done && Squeezed(done) + "" == Squeezed(done);
    } else if s[0] != '\\' {
      ExpandSimple(done + [s[0]], s[1..]);
      DecodesPlain(done, s);
    } else {
      ExpandSimple(done + [Simple(s[1]).value] + ['\0'], s[2..]);
      DecodesEscape(done, s);
    }
  }

  lemma SqueezedOne(cells: seq<char>, c: char)
    ensures Squeezed(cells + [c]) == Squeezed(cells) + if c == '\0' then "" else [c]
  {
    assert (cells + [c])[..|cells|] == cells;
  }

  /** On such text `unescape_string` is plain decoding, and it is safe to call. */
  lemma UnescapedSimple(s: string)
    requires OnlySimple(s)
    ensures NoLoneBackslash(s, 0) && Unescaped(s) == Decode(s)
  {
    ExpandSimple([], s);
    assert [] + s == s;
  }

  // ---- what stripping does, piece by piece ----

  predicate IsQuote(c: char) {
    c == '"' || c == '\''
  }

  lemma {:induction false} StripInside(mark: char, inner: string, rest: string)
    requires IsQuote(mark) && mark !in inner && '\\' !in inner
    ensures Strip(Toggle(OUTSIDE, mark), inner + [mark] + rest) == inner + Stripped(rest)
    decreases |inner|
  {
    var all := inner + [mark] + rest;
    if inner == "" {
      assert all[0] == mark && all[1..] == rest && "" + Stripped(rest) == Stripped(rest);
    } else {
      assert all[1..] == inner[1..] + [mark] + rest && forall c :: c in inner[1..] ==> c in inner;
      StripInside(mark, inner[1..], rest);
      assert inner == [inner[0]] + inner[1..];
    }
  }

  /** A pair of quotes goes, and all between them stays, quotes of the other kind as well. */
  lemma StripPair(mark: char, inner: string, rest: string)
    requires IsQuote(mark) && mark !in inner && '\\' !in inner
    ensures Stripped([mark] + inner + [mark] + rest) == inner + Stripped(rest)
  {
    var all := [mark] + inner + [mark] + rest;
    assert all[0] == mark && all[1..] == inner + [mark] + rest;
    StripInside(mark, inner, rest);
  }

  /** A character behind a backslash stays, whatever it is, and so does the backslash; and so do characters that
      are no quotes. */
  lemma StripKeeps(c: char, rest: string)
    ensures Stripped(['\\', c] + rest) == ['\\', c] + Stripped(rest)
    ensures !IsQuote(c) && c != '\\' ==> Stripped([c] + rest) == [c] + Stripped(rest)
  {
    assert ([c] + rest)[1..] == rest;
    assert ['\\', c] + rest == ['\\'] + ([c] + rest) && (['\\'] + ([c] + rest))[1..] == [c] + rest;
    StripEscaped(c, rest);
    assert ['\\'] + ([c] + Stripped(rest)) == ['\\', c] + Stripped(rest);
  }

  lemma StripEscaped(c: char, rest: string)
    ensures Strip(Pass(OUTSIDE, '\\'), [c] + rest) == [c] + Stripped(rest)
  {
    assert ([c] + rest)[1..] == rest;
  }

  // ---- the escapes ----

  /** Letters for the seven control characters from 7 on, in their order, and characters that stand for themselves;
      no others. */
  lemma SimpleIs(c: char)
    ensures forall k :: 0 <= k < 7 && c == "abtnvfr"[k] ==> Simple(c) == Some((7 + k) as char)
    ensures c in ['\\', '\'', '"', '?'] ==> Simple(c) == Some(c)
    ensures Simple(c) == None <==> c !in "abtnvfr" && c !in ['\\', '\'', '"', '?']
  {
  }

  predicate Raw(s: string) {
    '\\' !in s && '\0' !in s
  }

  lemma {:induction false} SqueezedRaw(s: string)
    requires '\0' !in s
    ensures Squeezed(s) == s
  {
    if s != "" {
      var init, c := s[..|s| - 1], s[|s| - 1];
      SqueezedRaw(init);
      assert s == init + [c];
    }
  }

  lemma {:induction false} SqueezedAppend(a: seq<char>, b: seq<char>)
    ensures Squeezed(a + b) == Squeezed(a) + Squeezed(b)
  {
    if b == [] {
      assert a + b == a && Squeezed(a) + "" == Squeezed(a);
    } else {
      var init, c := b[..|b| - 1], b[|b| - 1];
      assert a + b == (a + init) + [c] && b == init + [c];
      SqueezedAppend(a, init);
      SqueezedOne(a + init, c);
      SqueezedOne(init, c);
      Regroup(Squeezed(a), Squeezed(init), if c == '\0' then "" else [c]);
    }
  }

  /** The first phase passes what is no escape. */
  lemma {:induction false} PassRaw(s: string, rest: seq<char>, i: nat)
    requires Raw(s) && i <= |s|
    ensures Expand(s + rest, i) == Expand(s + rest, |s|)
    decreases |s| - i
  {
    if i < |s| {
      assert (s + rest)[i] == s[i] && s[i] in s;
      PassRaw(s, rest, i + 1);
    }
  }

  lemma DigitsAre(c: char)
    ensures IsDigit(c) <==> c in "0123456789"
    ensures forall k :: 0 <= k < 10 && c == "0123456789"[k] ==> Digit(c) == k
  {
    if IsDigit(c) { assert "0123456789"[c as int - '0' as int] == c; }
  }

  /** A `\x` escape of two digits is read as if they were hexadecimal, and it ends the unescaping: the rest stays as
      it is, since the NULs the escape leaves behind stop the loop. */
  lemma HexStops(s: string, d: char, e: char, rest: string)
    requires Raw(s) && IsDigit(d) && IsDigit(e) && (d != '0' || e != '0') && '\0' !in rest
    ensures Unescaped(s + ['\\', 'x', d, e] + rest) == s + [(16 * Digit(d) + Digit(e)) as char] + rest
  {
    var code := (16 * Digit(d) + Digit(e)) as char;
    HexCells(s, d, e, rest);
    SqueezedGap(s + [code], ['\0', '\0', '\0'], rest);
  }

  /** One of one digit does the same with that. */
  lemma HexDigitStops(s: string, d: char, rest: string)
    requires Raw(s) && IsDigit(d) && d != '0' && '\0' !in rest && (rest != "" ==> !IsDigit(rest[0]))
    ensures Unescaped(s + ['\\', 'x', d] + rest) == s + [Digit(d) as char] + rest
  {
    var all := s + ['\\', 'x', d] + rest;
    assert all == s + (['\\', 'x', d] + rest);
    PassRaw(s, ['\\', 'x', d] + rest, 0);
    var cells := Escape(all, |s|);
    assert cells == s + [Digit(d) as char] + ['\0', '\0'] + rest;
    assert Expand(cells, |s| + 2) == (cells, None);
    SqueezedGap(s + [Digit(d) as char], ['\0', '\0'], rest);
  }

  /** Without a digit a `\x` disappears, and unescaping goes on. */
  lemma HexVanishes(s: string, t: string)
    requires Raw(s) && Raw(t) && (t != "" ==> !IsDigit(t[0]))
    ensures Unescaped(s + ['\\', 'x'] + t) == s + t
  {
    var all := s + ['\\', 'x'] + t;
    assert all == s + (['\\', 'x'] + t);
    PassRaw(s, ['\\', 'x'] + t, 0);
    var cells := Escape(all, |s|);
    assert cells == s + ['\0', '\0'] + t;
    assert cells[|s| + 2..] == t;
    PassTail(cells, |s| + 2);
    SqueezedGap(s, ['\0', '\0'], t);
  }

  lemma HexCells(s: string, d: char, e: char, rest: string)
    requires Raw(s) && IsDigit(d) && IsDigit(e)
    ensures Expand(s + ['\\', 'x', d, e] + rest, 0)
         == (s + [(16 * Digit(d) + Digit(e)) as char] + ['\0', '\0', '\0'] + rest, None)
  {
    var all := s + ['\\', 'x', d, e] + rest;
    assert all == s + (['\\', 'x', d, e] + rest);
    PassRaw(s, ['\\', 'x', d, e] + rest, 0);
    var cells := Escape(all, |s|);
    assert cells == s + [(16 * Digit(d) + Digit(e)) as char] + ['\0', '\0', '\0'] + rest;
    assert Expand(cells, |s| + 2) == (cells, None);
  }

  lemma SqueezedGap(shown: string, gap: seq<char>, rest: string)
    requires '\0' !in shown && '\0' !in rest && forall c :: c in gap ==> c == '\0'
    ensures Squeezed(shown + gap + rest) == shown + rest
  {
    hide Squeezed;
    SqueezedAppend(shown + gap, rest);
    SqueezedAppend(shown, gap);
    SqueezedNuls(gap);
    SqueezedRaw(shown);
    SqueezedRaw(rest);
    assert shown + "" == shown;
  }

  lemma {:induction false} SqueezedNuls(cells: seq<char>)
    requires forall c :: c in cells ==> c == '\0'
    ensures Squeezed(cells) == ""
  {
    if cells != [] {
      var init, c := cells[..|cells| - 1], cells[|cells| - 1];
      assert c in cells && forall d :: d in init ==> d in cells;
      SqueezedNuls(init);
    }
  }

  /** A `\0` escape ends the string. */
  lemma ZeroEnds(s: string, rest: string)
    requires Raw(s)
    ensures Unescaped(s + ['\\', '0'] + rest) == s && Expand(s + ['\\', '0'] + rest, 0).1 == Some(|s|)
  {
    var all := s + ['\\', '0'] + rest;
    assert all == s + (['\\', '0'] + rest);
    PassRaw(s, ['\\', '0'] + rest, 0);
    var cells := all[|s| := '\0'];
    assert Expand(all, 0) == (cells, Some(|s|));
    CStringIs(s, ['0'] + rest);
    assert cells == s + ['\0'] + (['0'] + rest);
  }

  /** Escapes that mean nothing stay. */
  lemma UnknownStays(s: string, c: char, t: string)
    requires Raw(s) && Raw(t) && Simple(c) == None && c != 'x' && c != '0' && c != '\0'
    ensures Unescaped(s + ['\\', c] + t) == s + ['\\', c] + t
  {
    var all := s + ['\\', c] + t;
    assert all == s + (['\\', c] + t);
    PassRaw(s, ['\\', c] + t, 0);
    assert Escape(all, |s|) == all;
    PassTail(all, |s| + 2);
    SqueezedRaw(all);
  }

  lemma {:induction false} PassTail(cells: seq<char>, i: nat)
    requires i <= |cells| && Raw(cells[i..])
    ensures Expand(cells, i) == (cells, None)
    decreases |cells| - i
  {
    if i < |cells| {
      assert cells[i] in cells[i..] && cells[i..][1..] == cells[i + 1..];
      assert forall c :: c in cells[i + 1..] ==> c in cells[i..];
      PassTail(cells, i + 1);
    }
  }
}
