/** `split_string`: the maximal runs of characters between delimiters. */
module SplitString {
  predicate Plain(s: string, d: char) {
    s != "" && d !in s
  }

  /** The length of the first run. */
  function RunLength(s: string, d: char): (n: nat)
    ensures n <= |s| && d !in s[..n] && (n < |s| ==> s[n] == d)
  {
    if s == "" || s[0] == d then 0 else 1 + RunLength(s[1..], d)
  }

  function SplitRuns(s: string, d: char): seq<string> {
    if s == "" then []
    else if s[0] == d then SplitRuns(s[1..], d)
    else [s[..RunLength(s, d)]] + SplitRuns(s[RunLength(s, d)..], d)
  }

  function Split(s: string, d: char): seq<string> {
    SplitRuns(s, d)
  }

  /** Texts put together with a delimiter between them. */
  function JoinWith(ts: seq<string>, d: char): string {
    if ts == [] then ""
    else if |ts| == 1 then ts[0]
    else JoinWith(ts[..|ts| - 1], d) + [d] + ts[|ts| - 1]
  }

  lemma {:induction false} RunAppend(a: string, rest: string, d: char)
    ensures RunLength(a, d) < |a| ==> RunLength(a + [d] + rest, d) == RunLength(a, d)
    ensures RunLength(a, d) == |a| ==> RunLength(a + [d] + rest, d) == |a|
  {
    if a != "" && a[0] != d {
      assert (a + [d] + rest)[1..] == a[1..] + [d] + rest;
      RunAppend(a[1..], rest, d);
    }
  }

  /** A delimiter separates. */
  lemma {:induction false} SplitAppend(a: string, rest: string, d: char)
    ensures Split(a + [d] + rest, d) == Split(a, d) + Split(rest, d)
    decreases |a|
  {
    hide RunLength;
    var all := a + [d] + rest;
    if a == "" {
      assert all[1..] == rest;
    } else if a[0] == d {
      assert all[1..] == a[1..] + [d] + rest;
      SplitAppend(a[1..], rest, d);
    } else {
      var n := RunLength(a, d);
      RunAppend(a, rest, d);
      assert all[..n] == a[..n] && all[n..] == a[n..] + [d] + rest;
      SplitAppend(a[n..], rest, d);
      assert Split(all, d) == [a[..n]] + Split(all[n..], d);
      assert Split(a, d) == [a[..n]] + Split(a[n..], d);
    }
  }

  lemma {:induction false} PlainRun(s: string, d: char)
    requires d !in s
    ensures RunLength(s, d) == |s|
  {
    if s != "" {
      PlainRun(s[1..], d);
    }
  }

  lemma SplitPlain(s: string, d: char)
    requires Plain(s, d)
    ensures Split(s, d) == [s]
  {
    PlainRun(s, d);
    assert s[|s|..] == "" && s[..|s|] == s;
    assert SplitRuns(s, d) == [s[..|s|]] + SplitRuns(s[|s|..], d);
  }

  /** Splitting undoes joining. */
  lemma {:induction false} SplitJoined(ts: seq<string>, d: char)
    requires forall i :: 0 <= i < |ts| ==> Plain(ts[i], d)
    ensures Split(JoinWith(ts, d), d) == ts
  {
    if |ts| == 1 {
      SplitPlain(ts[0], d);
    } else if |ts| > 1 {
      var init, last := ts[..|ts| - 1], ts[|ts| - 1];
      SplitJoined(init, d);
      SplitPlain(last, d);
      SplitAppend(JoinWith(init, d), last, d);
    }
  }
}
